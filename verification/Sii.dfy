// The EEPROM byte cache (ecx_siigetbyte): a buffer with a bitmap, for one slave at a time, filled
// four or eight bytes per access; section 5.4 of ETG.1000.6.
module Sii {
  import opened Bytes

  const EC_MAXEEPBITMAP := 128
  const EC_MAXEEPBUF := 4096

  /** The EEPROM contents by slave and byte address, and which slaves answer with eight bytes. */
  datatype Rom = Rom(bytes: (nat, nat) -> Byte, eightBytes: nat -> bool) {
    function Width(slave: nat): (n: nat)
      ensures n == 4 || n == 8
    {
      if eightBytes(slave) then 8 else 4
    }

    /** An access at this address stays inside the buffer. */
    predicate Fits(slave: nat, address: nat) {
      address >= EC_MAXEEPBUF || address / 2 * 2 + Width(slave) <= EC_MAXEEPBUF
    }

    /** The byte at an address, or 0xff beyond the cache. */
    function ByteAt(slave: nat, address: nat): Byte {
      if address < EC_MAXEEPBUF then bytes(slave, address) else 0xff
    }
  }

  class Cache {
    const esimap: array2<bool>
    const esibuf: array<Byte>
    var esislave: nat

    /** Addresses whose bytes in the buffer come from an access that failed: the source stores its zeros like any data. */
    ghost var failed: set<nat>

    constructor ()
      ensures failed == {} && Shape() && fresh(esimap) && fresh(esibuf)
      ensures esislave == 0 && forall a :: 0 <= a < EC_MAXEEPBUF ==> !Known(a)
    {
      esimap := new bool[EC_MAXEEPBITMAP, 32]((i, j) => false);
      esibuf := new Byte[EC_MAXEEPBUF];
      esislave, failed := 0, {};
    }

    ghost predicate Shape() {
      esimap.Length0 == EC_MAXEEPBITMAP && esimap.Length1 == 32 && esibuf.Length == EC_MAXEEPBUF
    }

    /** The bitmap has the byte at address `a`. */
    ghost predicate Known(a: nat)
      requires Shape() && a < EC_MAXEEPBUF
      reads esimap
    {
      esimap[a / 32, a % 32]
    }

    /** Every byte marked as present is the current slave's, or the zero of a failed access. */
    ghost predicate Valid(rom: Rom)
      reads this, esimap, esibuf
    {
      Shape() && forall a :: 0 <= a < EC_MAXEEPBUF && Known(a) ==>
                   esibuf[a] == if a in failed then 0 else rom.bytes(esislave, a)
    }

    method Clear()
      requires Shape()
      modifies esimap
      ensures forall a :: 0 <= a < EC_MAXEEPBUF ==> !Known(a)
    {
      forall i, j | 0 <= i < esimap.Length0 && 0 <= j < esimap.Length1 { esimap[i, j] := false; }
    }

    /** Setting `cnt` bits from bit `from` on, word by word. */
    method Mark(from: nat, cnt: nat)
      requires Shape() && from + cnt <= EC_MAXEEPBUF
      modifies esimap
      ensures forall a :: 0 <= a < EC_MAXEEPBUF ==> (Known(a) <==> old(Known(a)) || from <= a < from + cnt)
    {
      var mapw, mapb := from / 32, from % 32;
      var lp := 0;
      while lp < cnt
        invariant 0 <= lp <= cnt && mapw * 32 + mapb == from + lp && 0 <= mapb < 32
        invariant forall a :: 0 <= a < EC_MAXEEPBUF ==> (Known(a) <==> old(Known(a)) || from <= a < from + lp)
      {
        esimap[mapw, mapb] := true;
        mapb := mapb + 1;
        if mapb > 31 {
          mapb, mapw := 0, mapw + 1;
        }
        lp := lp + 1;
      }
    }

    /** ecx_siigetbyte; `works` is whether an access to the slave would succeed, `asked` tells whether there was one. */
    method SiiGetByte(slave: nat, address: nat, rom: Rom, works: bool) returns (retval: Byte, asked: bool)
      requires Valid(rom) && rom.Fits(slave, address)
      modifies this, esimap, esibuf
      ensures Valid(rom) && esislave == slave
      ensures retval == if address < EC_MAXEEPBUF && address in failed then 0 else rom.ByteAt(slave, address)
      ensures asked <==> address < EC_MAXEEPBUF && (slave != old(esislave) || !old(Known(address)))
      ensures address < EC_MAXEEPBUF ==> Known(address)
      ensures forall a :: 0 <= a < EC_MAXEEPBUF ==>
                (Known(a) <==> (slave == old(esislave) && old(Known(a))) ||
                               (asked && address / 2 * 2 <= a < address / 2 * 2 + rom.Width(slave)))
      ensures var before := if slave != old(esislave) then {} else old(failed);
              failed == if !asked then before
                        else if works then before - Window(address / 2 * 2, rom.Width(slave))
                        else before + Window(address / 2 * 2, rom.Width(slave))
    {
      retval, asked := 0xff, false;
      if slave != esislave {
        Clear();
        esislave, failed := slave, {};
      }
      if address < EC_MAXEEPBUF {
        var mapw := address / 32;
        var mapb := address - mapw * 32;
        assert Known(address) <==> esimap[mapw, mapb];
        if esimap[mapw, mapb] {
          retval := esibuf[address];
        } else {
          var eadr := address / 2;
          var cnt := rom.Width(slave);
          forall k | 0 <= k < cnt { esibuf[eadr * 2 + k] := if works then rom.bytes(slave, eadr * 2 + k) else 0; }
          WindowIs(eadr * 2, cnt);
          failed := if works then failed - Window(eadr * 2, cnt) else failed + Window(eadr * 2, cnt);
          Mark(eadr * 2, cnt);
          retval := esibuf[address];
          asked := true;
        }
      }
    }

    /** Any sequence of requests, for any slaves in any order, any access of which may fail. */
    method Serve(requests: seq<(nat, nat)>, rom: Rom, works: nat -> bool) returns (replies: seq<Byte>)
      requires Valid(rom) && forall i :: 0 <= i < |requests| ==> rom.Fits(requests[i].0, requests[i].1)
      modifies this, esimap, esibuf
      ensures Valid(rom) && |replies| == |requests|
      ensures forall i :: 0 <= i < |requests| ==> replies[i] == 0 || replies[i] == rom.ByteAt(requests[i].0, requests[i].1)
      ensures old(failed) == {} && (forall i :: 0 <= i < |requests| ==> works(i)) ==>
                failed == {} && forall i :: 0 <= i < |requests| ==> replies[i] == rom.ByteAt(requests[i].0, requests[i].1)
    {
      replies := [];
      while |replies| < |requests|
        invariant Valid(rom) && |replies| <= |requests|
        invariant forall i :: 0 <= i < |replies| ==> replies[i] == 0 || replies[i] == rom.ByteAt(requests[i].0, requests[i].1)
        invariant old(failed) == {} && (forall i :: 0 <= i < |requests| ==> works(i)) ==>
                    failed == {} && forall i :: 0 <= i < |replies| ==> replies[i] == rom.ByteAt(requests[i].0, requests[i].1)
      {
        var b, _ := SiiGetByte(requests[|replies|].0, requests[|replies|].1, rom, works(|replies|));
        replies := replies + [b];
      }
    }
  }

  /** The addresses of one access. */
  function Window(from: nat, cnt: nat): set<nat> {
    if cnt == 0 then {} else Window(from, cnt - 1) + {from + cnt - 1}
  }

  lemma {:induction false} WindowIs(from: nat, cnt: nat)
    ensures forall a: nat :: a in Window(from, cnt) <==> from <= a < from + cnt
  {
    if cnt > 0 {
      WindowIs(from, cnt - 1);
    }
  }
}
