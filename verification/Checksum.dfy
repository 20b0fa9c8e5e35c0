/** The Internet checksum: the device's sum over a packet buffer, and the definition in section 1 of RFC 1071. */
module Checksum {
  type Octet = n: nat | n < 0x100 witness 0

  const W: nat := 0x1_0000
  const DWORD: nat := 0x1_0000_0000

  // ---------------------------------------------------------------- the definition

  /** One's complement addition of 16-bit words: with end-around carry. */
  function OnesAdd(a: nat, b: nat): nat {
    if a + b < W then a + b else a + b - 0xFFFF
  }

  function OnesSum(words: seq<nat>): nat {
    if words == [] then 0 else OnesAdd(words[0], OnesSum(words[1..]))
  }

  function Pair(hi: nat, lo: nat): nat {
    0x100 * hi + lo
  }

  /** The data as words, first byte high, an odd last byte padded with zero. */
  function BigWords(data: seq<Octet>): (r: seq<nat>)
    ensures |r| == (|data| + 1) / 2 && forall k :: 0 <= k < |r| ==> r[k] < W
  {
    if data == [] then [] else if |data| == 1 then [Pair(data[0], 0)] else [Pair(data[0], data[1])] + BigWords(data[2..])
  }

  /** The checksum that goes into a header. */
  function InternetChecksum(data: seq<Octet>): int {
    0xFFFF - OnesSum(BigWords(data))
  }

  // ---------------------------------------------------------------- sums of words

  /** The words as the device reads them from memory, first byte low. */
  function LittleWords(data: seq<Octet>): (r: seq<nat>)
    ensures |r| == (|data| + 1) / 2 && forall k :: 0 <= k < |r| ==> r[k] < W
  {
    if data == [] then [] else if |data| == 1 then [Pair(0, data[0])] else [Pair(data[1], data[0])] + LittleWords(data[2..])
  }

  function Total(words: seq<nat>): nat {
    if words == [] then 0 else words[0] + Total(words[1..])
  }

  /** The 16-bit representative of a sum; zero only for zero. */
  function Canonical(x: nat): nat {
    if x == 0 then 0 else (x - 1) % 0xFFFF + 1
  }

  lemma CanonicalAdd(a: nat, x: nat)
    requires a < W
    ensures OnesAdd(a, Canonical(x)) == Canonical(a + x) < W
  {
    if x > 0 {
      var q, r := (x - 1) / 0xFFFF, (x - 1) % 0xFFFF;
      assert x - 1 == 0xFFFF * q + r;
      if a + r + 1 < W {
        if a + r < 0xFFFF {
          assert a + x - 1 == 0xFFFF * q + (a + r);
        }
      } else {
        assert a + x - 1 == 0xFFFF * (q + 1) + (a + r - 0xFFFF);
      }
    }
  }

  /** The one's complement sum is the representative of the plain sum. */
  lemma {:induction false} OnesSumIsCanonical(words: seq<nat>)
    requires forall k :: 0 <= k < |words| ==> words[k] < W
    ensures OnesSum(words) == Canonical(Total(words)) < W
    decreases |words|
  {
    if words != [] {
      OnesSumIsCanonical(words[1..]);
      CanonicalAdd(words[0], Total(words[1..]));
    }
  }

  /** Two end-around carries are enough for any 32-bit sum. */
  lemma TwoFolds(x: nat)
    requires x < DWORD
    ensures var y := x % W + x / W; (y % W + y / W) % W == Canonical(x)
  {
    hide Canonical;
    var h, l := x / W, x % W;
    assert x == W * h + l && h < W;
    var y := l + h;
    if y >= W {
      Halves(y, 1, y - W);
      Halves(y - W + 1, 0, y - W + 1);
      CanonicalIs(x, h + 1, y - W);
    } else {
      Halves(y, 0, y);
      if y == 0xFFFF {
        CanonicalIs(x, h, 0xFFFE);
      } else if y > 0 {
        CanonicalIs(x, h, y - 1);
      } else {
        CanonicalNone();
      }
    }
  }

  lemma Halves(x: nat, q: nat, r: nat)
    requires x == W * q + r && r < W
    ensures x / W == q && x % W == r
  {
  }

  lemma CanonicalIs(x: nat, q: nat, r: nat)
    requires x == 0xFFFF * q + r + 1 && r < 0xFFFF
    ensures Canonical(x) == r + 1
  {
  }

  lemma CanonicalNone()
    ensures Canonical(0) == 0
  {
  }

  lemma {:induction false} TotalBound(words: seq<nat>)
    requires forall k :: 0 <= k < |words| ==> words[k] < W
    ensures Total(words) <= 0xFFFF * |words|
    decreases |words|
  {
    if words != [] {
      TotalBound(words[1..]);
    }
  }

  lemma {:induction false} LittleWordsConcat(a: seq<Octet>, b: seq<Octet>)
    requires |a| % 2 == 0
    ensures Total(LittleWords(a + b)) == Total(LittleWords(a)) + Total(LittleWords(b))
    decreases |a|
  {
    if a == [] {
      assert a + b == b;
    } else {
      assert (a + b)[2..] == a[2..] + b && (a + b)[0] == a[0] && (a + b)[1] == a[1];
      LittleWordsConcat(a[2..], b);
      assert LittleWords(a + b)[1..] == LittleWords(a[2..] + b) && LittleWords(a)[1..] == LittleWords(a[2..]);
    }
  }

  // ---------------------------------------------------------------- the device's sum

  method GetArray(data: seq<Octet>, pos: nat, buffer: array<Octet>, n: nat)
    requires pos + n <= |data| && n <= buffer.Length
    modifies buffer
    ensures buffer[..n] == data[pos..pos + n]
  {
    for k := 0 to n
      invariant forall j :: 0 <= j < k ==> buffer[j] == data[pos + j]
    {
      buffer[k] := data[pos + k];
    }
  }

  /** The inner loop: add the words of the buffer to the 32-bit sum. */
  method AddChunk(buffer: array<Octet>, n: nat, sum: nat) returns (sum': nat)
    requires n % 2 == 0 && n <= buffer.Length && sum + Total(LittleWords(buffer[..n])) < DWORD
    ensures sum' == sum + Total(LittleWords(buffer[..n]))
  {
    hide LittleWords, Pair, Total;
    ghost var words := LittleWords(buffer[..n]);
    ghost var all := sum + Total(words);
    sum' := sum;
    var left, ptr := n, 0;
    assert words[0..] == words;
    while left > 0
      invariant 0 <= left && left + 2 * ptr == n && sum' + Total(words[ptr..]) == all
    {
      WordAt(buffer[..n], ptr);
      TotalStep(words, ptr);
      sum' := (sum' + Pair(buffer[2 * ptr + 1], buffer[2 * ptr])) % DWORD;
      ptr := ptr + 1;
      left := left - 2;
    }
    assert words[ptr..] == [];
    NoWords();
  }

  lemma TotalStep(words: seq<nat>, k: nat)
    requires k < |words|
    ensures Total(words[k..]) == words[k] + Total(words[k + 1..])
  {
    assert words[k..][1..] == words[k + 1..];
  }

  lemma {:induction false} WordAt(data: seq<Octet>, k: nat)
    requires |data| % 2 == 0 && 2 * k < |data|
    ensures k < |LittleWords(data)| && LittleWords(data)[k] == Pair(data[2 * k + 1], data[2 * k])
    decreases k
  {
    if k > 0 {
      WordAt(data[2..], k - 1);
    }
  }

  /** A zero after an odd last byte changes nothing. */
  lemma {:induction false} PaddedChunk(data: seq<Octet>)
    requires |data| % 2 == 1
    ensures LittleWords(data + [0]) == LittleWords(data)
    decreases |data|
  {
    hide Pair;
    if |data| == 1 {
      assert (data + [0])[2..] == [];
    } else {
      assert (data + [0])[2..] == data[2..] + [0];
      PaddedChunk(data[2..]);
    }
  }

  /** CalcIPBufferChecksum: chunks of twenty bytes, a 32-bit sum, two end-around carries. */
  method CalcIPBufferChecksum(data: seq<Octet>) returns (checksum: nat)
    requires |data| < W
    ensures checksum == 0xFFFF - OnesSum(LittleWords(data))
  {
    hide LittleWords, Total, OnesSum, Pair, Canonical;
    ghost var all := Total(LittleWords(data));
    TotalSmall(data);
    var buffer := new Octet[20];
    var len, pos: nat, sum: nat := |data|, 0, 0;
    ghost var half: nat := 0;
    assert data[0..] == data;
    while len > 0
      invariant 0 <= len && pos + len == |data| && (len == 0 || pos == 2 * half)
      invariant sum + Total(LittleWords(data[pos..])) == all
    {
      var chunkLen := if len > 20 then 20 else len;
      ghost var chunk := data[pos..pos + chunkLen];
      assert data[pos..] == chunk + data[pos + chunkLen..];
      GetArray(data, pos, buffer, chunkLen);
      len := len - chunkLen;
      pos := pos + chunkLen;
      half := half + 10;
      sum := TakeChunk(buffer, chunkLen, sum, data[pos..]);
    }
    assert data[pos..] == [];
    NoWords();
    FoldedSum(sum, data);
    sum := sum % W + sum / W;
    checksum := 0xFFFF - (sum % W + sum / W) % W;
  }

  lemma TotalSmall(data: seq<Octet>)
    requires |data| < W
    ensures Total(LittleWords(data)) < DWORD
  {
    TotalBound(LittleWords(data));
    hide LittleWords, Total;
  }

  lemma FoldedSum(sum: nat, data: seq<Octet>)
    requires sum == Total(LittleWords(data)) < DWORD
    ensures var y := sum % W + sum / W; (y % W + y / W) % W == OnesSum(LittleWords(data)) < W
  {
    hide Total, OnesSum, Canonical;
    TwoFolds(sum);
    OnesSumIsCanonical(LittleWords(data));
  }

  /** A chunk, with a zero after an odd last byte; `rest` is what follows it. */
  method TakeChunk(buffer: array<Octet>, n: nat, sum: nat, ghost rest: seq<Octet>) returns (sum': nat)
    requires buffer.Length == 20 && n <= 20 && (n % 2 == 1 ==> rest == [])
    requires sum + Total(LittleWords(buffer[..n] + rest)) < DWORD
    modifies buffer
    ensures sum' + Total(LittleWords(rest)) == sum + Total(LittleWords(old(buffer[..n]) + rest))
  {
    hide LittleWords, Total;
    ghost var chunk := buffer[..n];
    var chunkLen := n;
    NoWords();
    if chunkLen % 2 == 1 {
      assert chunk + rest == chunk;
      PaddedChunk(chunk);
      buffer[chunkLen] := 0;
      chunkLen := chunkLen + 1;
      assert buffer[..chunkLen] == chunk + [0];
    } else {
      LittleWordsConcat(chunk, rest);
    }
    sum' := AddChunk(buffer, chunkLen, sum);
  }

  lemma NoWords()
    ensures Total(LittleWords([])) == 0 == Total([])
  {
  }

  // ---------------------------------------------------------------- byte order

  function Swap(w: nat): nat {
    w % 0x100 * 0x100 + w / 0x100
  }

  lemma Digits(w: nat, hi: nat, lo: nat)
    requires w == 0x100 * hi + lo && lo < 0x100
    ensures w / 0x100 == hi && w % 0x100 == lo && Swap(w) == 0x100 * lo + hi
  {
  }

  lemma SwapAdd(a: nat, b: nat)
    requires a < W && b < W
    ensures OnesAdd(a, b) < W && Swap(OnesAdd(a, b)) == OnesAdd(Swap(a), Swap(b)) < W
  {
    var a1, a0, b1, b0 := a / 0x100, a % 0x100, b / 0x100, b % 0x100;
    Digits(a, a1, a0);
    Digits(b, b1, b0);
    hide Swap;
    var h, l := a1 + b1, a0 + b0;
    var carry := if l >= 0x100 then 1 else 0;
    var over := if h + carry >= 0x100 then 1 else 0;
    var hi, lo := h + carry - 0x100 * over, l - 0x100 * carry + over;
    if lo < 0x100 {
      Digits(OnesAdd(a, b), hi, lo);
    } else {
      Digits(OnesAdd(a, b), hi + 1, lo - 0x100);
    }
  }

  function Swapped(words: seq<nat>): (r: seq<nat>)
    ensures |r| == |words|
  {
    seq(|words|, k requires 0 <= k < |words| => Swap(words[k]))
  }

  /** Section 2 (B) of RFC 1071: the sum of swapped words is the swapped sum. */
  lemma {:induction false} SwappedSum(words: seq<nat>)
    requires forall k :: 0 <= k < |words| ==> words[k] < W
    ensures OnesSum(words) < W && OnesSum(Swapped(words)) == Swap(OnesSum(words))
    decreases |words|
  {
    if words != [] {
      assert Swapped(words)[1..] == Swapped(words[1..]);
      SwappedSum(words[1..]);
      SwapAdd(words[0], OnesSum(words[1..]));
    }
  }

  lemma {:induction false} LittleIsSwapped(data: seq<Octet>)
    ensures LittleWords(data) == Swapped(BigWords(data))
    decreases |data|
  {
    hide Pair, Swap;
    if |data| == 1 {
      SwappedPair(data[0], 0);
    } else if |data| > 1 {
      SwappedPair(data[0], data[1]);
      LittleIsSwapped(data[2..]);
    }
  }

  lemma SwappedPair(hi: Octet, lo: Octet)
    ensures Swap(Pair(hi, lo)) == Pair(lo, hi)
  {
    hide Swap;
    Digits(Pair(hi, lo), hi, lo);
  }

  /** Stored in memory low byte first, the device's checksum is the Internet checksum in network order. */
  lemma ChecksumOnTheWire(data: seq<Octet>)
    ensures var mine, rfc := 0xFFFF - OnesSum(LittleWords(data)), InternetChecksum(data);
            0 <= mine < W && 0 <= rfc < W && mine % 0x100 == rfc / 0x100 && mine / 0x100 == rfc % 0x100
  {
    var sum := OnesSum(BigWords(data));
    LittleIsSwapped(data);
    SwappedSum(BigWords(data));
    var hi, lo := sum / 0x100, sum % 0x100;
    Digits(sum, hi, lo);
    hide Swap, OnesSum;
    Digits(0xFFFF - sum, 0xFF - hi, 0xFF - lo);
    Digits(0xFFFF - Swap(sum), 0xFF - lo, 0xFF - hi);
  }
}
