// Byte blocks as they are laid out in mailboxes and frames: copying into them, little-endian numbers.
module Bytes {

  datatype Option<T> = None | Some(value: T)

  type Byte = b: int | 0 <= b < 0x100

  type Data = seq<Byte>

  /** `buf` after a memcpy of `data` to position `at`. */
  function Splice(buf: Data, at: nat, data: Data): (r: Data)
    requires at + |data| <= |buf|
    ensures |r| == |buf|
  {
    buf[..at] + data + buf[at + |data|..]
  }

  /** memcpy of `data` into `buf`, from position `at` on. */
  method CopyInto(buf: array<Byte>, at: nat, data: Data)
    requires at + |data| <= buf.Length
    modifies buf
    ensures buf[..] == Splice(old(buf[..]), at, data)
  {
    forall k | 0 <= k < |data| { buf[at + k] := data[k]; }
  }

  function Zeros(n: nat): (r: Data)
    ensures |r| == n
  {
    seq(n, _ => 0)
  }

  function Le16(n: nat): (r: Data)
    ensures |r| == 2
  {
    [n % 0x100, n / 0x100 % 0x100]
  }

  function Le32(n: nat): (r: Data)
    ensures |r| == 4
  {
    Le16(n % 0x1_0000) + Le16(n / 0x1_0000)
  }

  /** The low byte comes first. */
  lemma {:induction false} LowByteFirst(b0: Byte, b1: Byte, b2: Byte, b3: Byte)
    ensures Le16(b0 + 0x100 * b1) == [b0, b1]
    ensures Le32(b0 + 0x100 * b1 + 0x1_0000 * b2 + 0x100_0000 * b3) == [b0, b1, b2, b3]
  {
    var low, high := b0 + 0x100 * b1, b2 + 0x100 * b3;
    assert Le16(low) == [b0, b1] && Le16(high) == [b2, b3];
    assert (low + 0x1_0000 * high) / 0x1_0000 == high && (low + 0x1_0000 * high) % 0x1_0000 == low;
  }

  /** The 16-bit number at position `at`. */
  function Word(s: Data, at: nat): (n: nat)
    requires at + 2 <= |s|
    ensures n < 0x1_0000
  {
    var low: int, high: int := s[at], s[at + 1];
    low + high * 0x100
  }

  /** The 32-bit number at position `at`. */
  function Long(s: Data, at: nat): (n: nat)
    requires at + 4 <= |s|
    ensures n < 0x1_0000_0000
  {
    Word(s, at) + Word(s, at + 2) * 0x1_0000
  }

  lemma {:induction false} Le16ReadsBack(n: nat, s: Data, at: nat)
    requires n < 0x1_0000 && at + 2 <= |s| && s[at..at + 2] == Le16(n)
    ensures Word(s, at) == n
  {
    assert s[at] == s[at..at + 2][0] && s[at + 1] == s[at..at + 2][1];
  }

  lemma {:induction false} Le32ReadsBack(n: nat, s: Data, at: nat)
    requires n < 0x1_0000_0000 && at + 4 <= |s| && s[at..at + 4] == Le32(n)
    ensures Long(s, at) == n
  {
    hide Word, Le16;
    assert s[at..at + 2] == s[at..at + 4][..2] && s[at + 2..at + 4] == s[at..at + 4][2..];
    Le16ReadsBack(n % 0x1_0000, s, at);
    Le16ReadsBack(n / 0x1_0000, s, at + 2);
  }
}
