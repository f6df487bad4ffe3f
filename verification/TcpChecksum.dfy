/** The one's-complement sums of the hand-written TCP server (RFC 1071, section 1). */

module Checksum {
  import opened Words

  /** The sum of the big-endian 16-bit words, a left-over byte being padded with zero. */
  function WordSum(s: seq<byte>): nat {
    if s == [] then 0
    else if |s| == 1 then Word(s[0], 0)
    else Word(s[0], s[1]) + WordSum(s[2..])
  }

  function Word(a: byte, b: byte): u16 {
    a * 0x100 + b
  }

  lemma FourBytes(s: seq<byte>)
    requires |s| == 4
    ensures WordSum(s) == Word(s[0], s[1]) + Word(s[2], s[3])
  {
    var t := s[2..];
    assert t[2..] == [] && WordSum([]) == 0;
    assert WordSum(t) == Word(t[0], t[1]) + WordSum(t[2..]);
  }

  /** End-around carries. */
  function Fold(sum: nat): (r: nat)
    ensures r <= 0xFFFF
    ensures r == if sum == 0 then 0 else (sum - 1) % 0xFFFF + 1
  {
    if sum < 0x1_0000 then sum else Fold(sum % 0x1_0000 + sum / 0x1_0000)
  }

  lemma {:induction false} WordSumAppend(s: seq<byte>, t: seq<byte>)
    requires |s| % 2 == 0
    ensures WordSum(s + t) == WordSum(s) + WordSum(t)
  {
    if s == [] {
      assert s + t == t;
    } else {
      WordSumAppend(s[2..], t);
      assert (s + t)[2..] == s[2..] + t;
    }
  }

  lemma {:induction false} WordSumBound(s: seq<byte>)
    ensures 2 * WordSum(s) <= 0xFFFF * (|s| + |s| % 2)
  {
    if |s| >= 2 {
      WordSumBound(s[2..]);
    }
  }

  /** A positive sum folds to its residue, counted from 1 to 0xFFFF. */
  lemma FoldsTo(sum: nat, k: nat, r: nat)
    requires sum == 0xFFFF * k + r && 1 <= r <= 0xFFFF
    ensures Fold(sum) == r
  {
    var f := Fold(sum);
    hide Fold;
    assert (sum - 1) % 0xFFFF == r - 1;
  }

  lemma FoldQuotient(sum: nat) returns (k: nat)
    requires sum > 0
    ensures sum == 0xFFFF * k + Fold(sum) && Fold(sum) >= 1
  {
    var f := Fold(sum);
    hide Fold;
    k := (sum - 1) / 0xFFFF;
  }

  /** If what was summed had `stale` more than the receiver sees, the receiver
      notices; otherwise its own sum folds to all ones. */
  lemma ComplementVerifies(sum: nat, stale: byte)
    requires sum > 0
    ensures Fold(sum + (0xFFFF - Fold(sum + stale))) == 0xFFFF <==> stale == 0
  {
    var k := FoldQuotient(sum + stale);
    FoldsTo(sum + (0xFFFF - Fold(sum + stale)), k, 0xFFFF - stale);
  }

  // ------------------------------------------------------------ the code

  /** rev>>8 | rev<<8: the value whose little-endian store puts `rev` on the wire in network order. */
  function Swap(rev: u16): u16 {
    rev / 256 + rev % 256 * 256
  }

  lemma TwoBytes(a: byte, b: byte)
    ensures WordSum([a, b]) == Word(a, b)
  {
    assert [a, b][2..] == [];
  }

  lemma EmptySum()
    ensures WordSum([]) == 0
  {
  }

  lemma OneMoreWord(s: seq<byte>, a: byte, b: byte)
    requires |s| % 2 == 0
    ensures WordSum(s + [a, b]) == WordSum(s) + Word(a, b)
    ensures 2 * WordSum(s) <= 0xFFFF * |s|
  {
    hide Word, WordSum;
    WordSumAppend(s, [a, b]);
    TwoBytes(a, b);
    WordSumBound(s);
  }

  /** The loop over the data; an odd length takes in the byte after it. */
  method SumWords(frame: array<byte>, off: nat, len: nat, start: u32) returns (sum: u32)
    requires off + len + len % 2 <= frame.Length
    requires len <= 0xFFFE && start <= 0x0010_0000
    ensures sum == start + WordSum(frame[off..off + len + len % 2])
  {
    hide WordSum, Word;
    var i := 0;
    sum := start;
    EmptySum();
    assert frame[off..off + 0] == [];
    while i < len
      invariant 0 <= i <= len + len % 2 && i % 2 == 0
      invariant sum == start + WordSum(frame[off..off + i])
      decreases len - i
    {
      var a, b := frame[off + i], frame[off + i + 1];
      OneMoreWord(frame[off..off + i], a, b);
      assert frame[off..off + i + 2] == frame[off..off + i] + [a, b];
      sum := (sum + Word(a, b)) % 0x1_0000_0000;
      i := (i + 2) % 0x1_0000;
    }
  }

  /** The fold loop: it terminates because every turn shrinks the sum. */
  method FoldSum(start: u32) returns (sum: u32)
    ensures sum == Fold(start)
  {
    sum := start;
    while sum / 0x1_0000 != 0
      invariant Fold(sum) == Fold(start)
      decreases sum
    {
      sum := sum % 0x1_0000 + sum / 0x1_0000;
    }
  }

  /** get_ipv4_checksumm. */
  method Ipv4Checksum(frame: array<byte>, off: nat, len: nat) returns (r: u16)
    requires len <= 254 && off + len + len % 2 <= frame.Length
    ensures r == Swap(0xFFFF - Fold(WordSum(frame[off..off + len + len % 2])))
  {
    var sum := SumWords(frame, off, len, 0);
    sum := FoldSum(sum);
    r := Swap(0xFFFF - sum);
  }

  /** Addresses, protocol and length, as they enter the TCP sum. */
  function PseudoSum(sourceIp: seq<byte>, destIp: seq<byte>, len: nat): nat {
    WordSum(sourceIp) + WordSum(destIp) + 6 + len
  }

  /** get_tcp_checksumm; a length of 65535 would never end its 16-bit loop. */
  method TcpChecksum(sourceIp: seq<byte>, destIp: seq<byte>, frame: array<byte>, off: nat, len: nat) returns (r: u16)
    requires |sourceIp| == 4 && |destIp| == 4
    requires len <= 0xFFFE && off + len + len % 2 <= frame.Length
    ensures r == Swap(0xFFFF - Fold(PseudoSum(sourceIp, destIp, len) + WordSum(frame[off..off + len + len % 2])))
  {
    hide Fold;
    WordSumBound(sourceIp);
    WordSumBound(destIp);
    FourBytes(sourceIp);
    FourBytes(destIp);
    var sum: u32 := Word(sourceIp[0], sourceIp[1]) + Word(sourceIp[2], sourceIp[3]);
    sum := sum + Word(destIp[0], destIp[1]) + Word(destIp[2], destIp[3]);
    sum := sum + 6;
    sum := sum + len;
    sum := SumWords(frame, off, len, sum);
    sum := FoldSum(sum);
    r := Swap(0xFFFF - sum);
  }
}
