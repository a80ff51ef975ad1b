/**
 * The OpenSubtitles movie hash (SubtitleDownload.hashFile): the file size plus
 * every 64-bit little-endian word of the first and of the last 64 KiB of the
 * file, added with 64-bit wrap-around, printed as 16 lowercase hex digits.
 */
module MovieHash {

  /** One byte of file content. */
  type Byte = x: int | 0 <= x < 256

  /** Bytes hashed at each end of the file. */
  const ChunkSize: nat := 65536
  /** struct.calcsize('q'): the width of one word. */
  const WordSize: nat := 8
  /** 65536 // 8: the words read at each end. */
  const WordsPerChunk: nat := 8192
  /** Files shorter than two chunks are not hashed. */
  const MinSize: nat := 131072
  /** 2^64: the accumulator is kept below this by the mask. */
  const Modulus: nat := 0x1_0000_0000_0000_0000

  /** A value of the 64-bit accumulator. */
  type U64 = x: int | 0 <= x < 0x1_0000_0000_0000_0000

  /**
   * What opening the file yields: either an error (the file cannot be opened
   * or its size cannot be read), or its bytes together with the offsets whose
   * read raises an I/O error.
   */
  datatype ByteSource =
    | Unopenable
    | Source(content: seq<Byte>, faulty: set<nat>)

  /** The outcome of hashing: a 64-bit hash or one of the two sentinels. */
  datatype HashResult = Hash(value: U64) | SizeError | IOError

  /**
   * The unsigned value of the 8 bytes at `pos`, least significant first.
   * Format 'q' reads in the host's byte order; this is the little-endian
   * case, the order the OpenSubtitles hash is defined with.
   */
  function Word(c: seq<Byte>, pos: nat): (w: nat)
    requires pos + 8 <= |c|
    ensures w < Modulus
  {
    c[pos] as int
    + 0x100 * (c[pos + 1] as int)
    + 0x1_0000 * (c[pos + 2] as int)
    + 0x100_0000 * (c[pos + 3] as int)
    + 0x1_0000_0000 * (c[pos + 4] as int)
    + 0x100_0000_0000 * (c[pos + 5] as int)
    + 0x1_0000_0000_0000 * (c[pos + 6] as int)
    + 0x100_0000_0000_0000 * (c[pos + 7] as int)
  }

  /** struct.unpack('q', ...): the word read as a two's-complement signed integer. */
  function Signed64(w: nat): (v: int)
    requires w < Modulus
    ensures -0x8000_0000_0000_0000 <= v < 0x8000_0000_0000_0000
    ensures v == w || v == w - Modulus
  {
    if w < 0x8000_0000_0000_0000 then w else w - Modulus
  }

  /** `x & 0xFFFFFFFFFFFFFFFF` on a Python integer of either sign. */
  function Mask64(x: int): (m: U64)
    ensures (x - m) % Modulus == 0
  {
    x % Modulus
  }

  /** Python's built-in max on two integers. */
  function Max(a: int, b: int): (m: int)
    ensures m >= a && m >= b && (m == a || m == b)
  {
    if a >= b then a else b
  }

  /** Some offset in [lo, hi) cannot be read. */
  predicate FaultIn(faulty: set<nat>, lo: nat, hi: nat)
  {
    exists k :: k in faulty && lo <= k < hi
  }

  /** The unsigned sum of the first `n` words starting at `start`. */
  function ChunkSum(c: seq<Byte>, start: nat, n: nat): nat
    requires start + 8 * n <= |c|
  {
    if n == 0 then 0 else ChunkSum(c, start, n - 1) + Word(c, start + 8 * (n - 1))
  }

  /**
   * The reference definition of the hash: size plus both chunk sums, reduced
   * modulo 2^64 once, with the words taken unsigned.
   */
  function ReferenceHash(c: seq<Byte>): U64
    requires |c| >= MinSize
  {
    (|c| + ChunkSum(c, 0, WordsPerChunk) + ChunkSum(c, |c| - ChunkSize, WordsPerChunk)) % Modulus
  }

  /** What hashing a byte source yields. */
  function HashOf(src: ByteSource): HashResult
  {
    match src
    case Unopenable => IOError
    case Source(c, faulty) =>
      if |c| < MinSize then SizeError
      else if FaultIn(faulty, 0, ChunkSize) || FaultIn(faulty, |c| - ChunkSize, |c|) then IOError
      else Hash(ReferenceHash(c))
  }

  /** A lowercase hex digit, as "%x" prints them. */
  predicate IsHexDigit(ch: char)
  {
    '0' <= ch <= '9' || 'a' <= ch <= 'f'
  }

  /** The lowercase hex digit for d. */
  function HexChar(d: nat): (ch: char)
    requires d < 16
    ensures IsHexDigit(ch)
  {
    if d < 10 then ('0' as int + d) as char else ('a' as int + d - 10) as char
  }

  /** The value of a lowercase hex digit. */
  function DigitValue(ch: char): (d: nat)
    requires IsHexDigit(ch)
    ensures d < 16 && HexChar(d) == ch
  {
    if '0' <= ch <= '9' then ch as int - '0' as int else ch as int - 'a' as int + 10
  }

  /** 16^n. */
  function Pow16(n: nat): (p: nat)
    ensures p >= 1
  {
    if n == 0 then 1 else 16 * Pow16(n - 1)
  }

  /** The `n` low hex digits of `v`, most significant first ("%0nx" for v < 16^n). */
  function HexDigits(v: nat, n: nat): (s: string)
    ensures |s| == n
    ensures forall i :: 0 <= i < n ==> IsHexDigit(s[i])
  {
    if n == 0 then "" else HexDigits(v / 16, n - 1) + [HexChar(v % 16)]
  }

  /** The number written by a string of lowercase hex digits. */
  function ParseHex(s: string): nat
    requires forall i :: 0 <= i < |s| ==> IsHexDigit(s[i])
  {
    if s == "" then 0 else 16 * ParseHex(s[..|s| - 1]) + DigitValue(s[|s| - 1])
  }

  /** "%016x" applied to a 64-bit value: sixteen lowercase hex digits, zero-padded. */
  function Hex16(v: U64): (s: string)
    ensures |s| == 16
    ensures forall i :: 0 <= i < 16 ==> IsHexDigit(s[i])
  {
    HexDigits(v, 16)
  }

  /** The string hashFile returns. */
  function Render(h: HashResult): string
  {
    match h
    case Hash(v) => Hex16(v)
    case SizeError => "SizeError"
    case IOError => "IOError"
  }

  /**
   * SubtitleDownload.hashFile. The accumulator starts at the file size; the
   * first chunk and then, after a seek, the last chunk are added word by word.
   * Any failing read gives "IOError".
   */
  method HashFile(src: ByteSource) returns (r: string)
    ensures r == Render(HashOf(src))
  {
    if src.Unopenable? {
      return "IOError";
    }
    var c, faulty := src.content, src.faulty;
    var filesize := |c|;
    var hash: int := filesize;
    if filesize < MinSize {
      return "SizeError";
    }
    assert HashOf(src) == if FaultIn(faulty, 0, ChunkSize) || FaultIn(faulty, filesize - ChunkSize, filesize)
      then IOError else Hash(ReferenceHash(c));
    var ok, head := AddChunk(c, faulty, 0, hash);
    if !ok {
      return "IOError";
    }
    var tail: nat := Max(0, filesize - ChunkSize);
    var sum;
    ok, sum := AddChunk(c, faulty, tail, head);
    if !ok {
      return "IOError";
    }
    assert tail == filesize - ChunkSize;
    AddTwice(filesize + ChunkSum(c, 0, WordsPerChunk), ChunkSum(c, tail, WordsPerChunk));
    assert sum == ReferenceHash(c);
    assert HashOf(src) == Hash(sum);
    r := Hex16(sum);
  }

  /**
   * One of hashFile's two loops: reads the 8192 words from `start` on,
   * adding each as a signed value and masking the sum to 64 bits. `ok` is
   * false when a read fails.
   */
  method AddChunk(c: seq<Byte>, faulty: set<nat>, start: nat, acc: int) returns (ok: bool, hash: U64)
    requires start + ChunkSize <= |c|
    ensures ok == !FaultIn(faulty, start, start + ChunkSize)
    ensures ok ==> hash == (acc + ChunkSum(c, start, WordsPerChunk)) % Modulus
  {
    // Masking the start value up front changes no result: the first add is masked too.
    hash := Mask64(acc);
    var pos: nat := start;
    for x := 0 to WordsPerChunk
      invariant pos == start + 8 * x
      invariant hash == (acc + ChunkSum(c, start, x)) % Modulus
      invariant !FaultIn(faulty, start, pos)
    {
      if FaultIn(faulty, pos, pos + 8) {
        return false, hash;
      }
      var lValue := Signed64(Word(c, pos));
      MaskedAdd(acc + ChunkSum(c, start, x), Word(c, pos));
      hash := Mask64(hash + lValue);
      pos := pos + 8;
    }
    ok := true;
  }

  /** Adding a signed word to a masked accumulator agrees with adding the unsigned word. */
  lemma MaskedAdd(a: int, w: nat)
    requires w < Modulus
    ensures (a % Modulus + Signed64(w)) % Modulus == (a + w) % Modulus
  {
    var q := a / Modulus;
    var t := if w < 0x8000_0000_0000_0000 then 0 else 1;
    assert a % Modulus + Signed64(w) == (a + w) - Modulus * (q + t);
    ModMultiple(a + w, q + t);
  }

  /** Reducing an intermediate sum does not change the final residue. */
  lemma AddTwice(a: int, b: int)
    ensures (a % Modulus + b) % Modulus == (a + b) % Modulus
  {
    ModMultiple(a + b, a / Modulus);
  }

  /** Subtracting a multiple of 2^64 does not change the residue. */
  lemma ModMultiple(x: int, k: int)
    ensures (x - Modulus * k) % Modulus == x % Modulus
  {
    DivModUnique(x - Modulus * k, x / Modulus - k, x % Modulus);
  }

  /** The quotient and remainder of Euclidean division are unique. */
  lemma DivModUnique(y: int, q: int, r: int)
    requires y == Modulus * q + r && 0 <= r < Modulus
    ensures y % Modulus == r
  {
  }

  /** Reading back the digits gives the value modulo 16^n. */
  lemma {:induction false} HexDigitsRoundTrip(v: nat, n: nat)
    ensures ParseHex(HexDigits(v, n)) == v % Pow16(n)
  {
    if n > 0 {
      var s := HexDigits(v, n);
      var p := Pow16(n - 1);
      assert s[..n - 1] == HexDigits(v / 16, n - 1);
      HexDigitsRoundTrip(v / 16, n - 1);
      assert DigitValue(s[n - 1]) == v % 16;
      assert ParseHex(s) == 16 * ((v / 16) % p) + v % 16;
      SplitMod(v, p);
    }
  }

  /** v mod 16p in terms of (v / 16) mod p and v mod 16. */
  lemma SplitMod(v: nat, p: nat)
    requires p >= 1
    ensures v % (16 * p) == 16 * ((v / 16) % p) + v % 16
  {
    var q := v / 16;
    var r := v % 16;
    var q2 := q / p;
    var r2 := q % p;
    assert v == 16 * p * q2 + (16 * r2 + r);
    assert 0 <= 16 * r2 + r < 16 * p;
    DivModUniqueGeneral(v, 16 * p, q2, 16 * r2 + r);
  }

  /** The quotient and remainder of Euclidean division by a positive number are unique. */
  lemma DivModUniqueGeneral(y: int, d: int, q: int, r: int)
    requires d > 0 && y == d * q + r && 0 <= r < d
    ensures y % d == r
  {
    var q', r' := y / d, y % d;
    assert d * (q - q') == r' - r;
    if q != q' {
      MulAtLeast(d, q - q');
    }
  }

  /** A nonzero multiple of d has magnitude at least d. */
  lemma MulAtLeast(d: int, k: int)
    requires d > 0 && k != 0
    ensures d * k >= d || d * k <= -d
  {
  }

  /** Sixteen hex digits cover exactly the 64-bit range. */
  lemma Pow16Is2To64()
    ensures Pow16(16) == Modulus
  {
    assert Pow16(2) == 0x100;
    assert Pow16(4) == 0x1_0000;
    assert Pow16(6) == 0x100_0000;
    assert Pow16(8) == 0x1_0000_0000;
    assert Pow16(10) == 0x100_0000_0000;
    assert Pow16(12) == 0x1_0000_0000_0000;
    assert Pow16(14) == 0x100_0000_0000_0000;
  }

  /**
   * A hash is rendered as exactly 16 lowercase hex digits that read back as
   * the hash, so it is never one of the two sentinel strings.
   */
  lemma RenderedHashFormat(h: HashResult)
    requires h.Hash?
    ensures |Render(h)| == 16
    ensures forall i :: 0 <= i < 16 ==> IsHexDigit(Render(h)[i])
    ensures ParseHex(Render(h)) == h.value
    ensures Render(h) != "SizeError" && Render(h) != "IOError"
  {
    var r := Render(h);
    assert r == HexDigits(h.value, 16);
    HexDigitsRoundTrip(h.value, 16);
    Pow16Is2To64();
    DivModUnique(h.value, 0, h.value);
    assert |"SizeError"| == 9 && |"IOError"| == 7;
  }

  /**
   * Files shorter than 2 * 65536 bytes give SizeError whatever their content;
   * from exactly 131072 bytes on, a readable file is hashed, and its two
   * chunks do not overlap.
   */
  lemma SizeThreshold(c: seq<Byte>, faulty: set<nat>)
    ensures |c| < MinSize ==> HashOf(Source(c, faulty)) == SizeError
    ensures HashOf(Source(c, {})).Hash? <==> |c| >= MinSize
    ensures |c| >= MinSize ==> ChunkSize <= |c| - ChunkSize
  {
    if |c| >= MinSize {
      assert !FaultIn({}, 0, ChunkSize);
      assert !FaultIn({}, |c| - ChunkSize, |c|);
    }
  }

  /** A chunk sum depends only on the bytes it covers. */
  lemma {:induction false} ChunkSumLocal(c1: seq<Byte>, c2: seq<Byte>, start: nat, n: nat)
    requires start + 8 * n <= |c1| && start + 8 * n <= |c2|
    requires c1[start..start + 8 * n] == c2[start..start + 8 * n]
    ensures ChunkSum(c1, start, n) == ChunkSum(c2, start, n)
  {
    if n > 0 {
      var last := start + 8 * (n - 1);
      SliceAgree(c1, c2, start, start + 8 * n, last);
      ChunkSumLocal(c1, c2, start, n - 1);
      WordLocal(c1, c2, start, start + 8 * n, last);
    }
  }

  /** Two sequences equal on [lo, hi) are equal on [lo, mid). */
  lemma SliceAgree(c1: seq<Byte>, c2: seq<Byte>, lo: nat, hi: nat, mid: nat)
    requires lo <= mid <= hi <= |c1| && hi <= |c2|
    requires c1[lo..hi] == c2[lo..hi]
    ensures c1[lo..mid] == c2[lo..mid]
  {
    assert c1[lo..mid] == c1[lo..hi][..mid - lo];
    assert c2[lo..mid] == c2[lo..hi][..mid - lo];
  }

  /** A word read inside a range where two sequences agree is the same in both. */
  lemma WordLocal(c1: seq<Byte>, c2: seq<Byte>, lo: nat, hi: nat, pos: nat)
    requires lo <= pos && pos + 8 <= hi <= |c1| && hi <= |c2|
    requires c1[lo..hi] == c2[lo..hi]
    ensures Word(c1, pos) == Word(c2, pos)
  {
    forall k | pos <= k < pos + 8
      ensures c1[k] == c2[k]
    {
      assert c1[k] == c1[lo..hi][k - lo];
      assert c2[k] == c2[lo..hi][k - lo];
    }
  }

  /** Two fault sets that agree on [lo, hi) agree on whether a read there fails. */
  lemma FaultInAgree(f1: set<nat>, f2: set<nat>, lo: nat, hi: nat)
    requires forall k :: lo <= k < hi ==> (k in f1 <==> k in f2)
    ensures FaultIn(f1, lo, hi) == FaultIn(f2, lo, hi)
  {
  }

  /** The sum over a chunk of 65536 bytes depends only on those bytes. */
  lemma ChunkLocal(c1: seq<Byte>, c2: seq<Byte>, start: nat)
    requires start + ChunkSize <= |c1| && start + ChunkSize <= |c2|
    requires c1[start..start + ChunkSize] == c2[start..start + ChunkSize]
    ensures ChunkSum(c1, start, WordsPerChunk) == ChunkSum(c2, start, WordsPerChunk)
  {
    ChunkSumLocal(c1, c2, start, WordsPerChunk);
  }

  /** HashOf reads a source only through its chunk sums and its faults there. */
  lemma SameChunksSameHash(c1: seq<Byte>, f1: set<nat>, c2: seq<Byte>, f2: set<nat>)
    requires |c1| == |c2| >= MinSize
    requires ChunkSum(c1, 0, WordsPerChunk) == ChunkSum(c2, 0, WordsPerChunk)
    requires ChunkSum(c1, |c1| - ChunkSize, WordsPerChunk) == ChunkSum(c2, |c2| - ChunkSize, WordsPerChunk)
    requires FaultIn(f1, 0, ChunkSize) == FaultIn(f2, 0, ChunkSize)
    requires FaultIn(f1, |c1| - ChunkSize, |c1|) == FaultIn(f2, |c2| - ChunkSize, |c2|)
    ensures HashOf(Source(c1, f1)) == HashOf(Source(c2, f2))
  {
    assert ReferenceHash(c1) == ReferenceHash(c2);
  }

  /**
   * Bytes strictly between offset 65536 and offset size - 65536, and whether
   * they can be read, do not affect the hash.
   */
  lemma MiddleBytesIgnored(c1: seq<Byte>, f1: set<nat>, c2: seq<Byte>, f2: set<nat>)
    requires |c1| == |c2| >= MinSize
    requires c1[..ChunkSize] == c2[..ChunkSize]
    requires c1[|c1| - ChunkSize..] == c2[|c2| - ChunkSize..]
    requires forall k :: k < ChunkSize ==> (k in f1 <==> k in f2)
    requires forall k :: |c1| - ChunkSize <= k < |c1| ==> (k in f1 <==> k in f2)
    ensures HashOf(Source(c1, f1)) == HashOf(Source(c2, f2))
  {
    var n := |c1|;
    assert c1[0..ChunkSize] == c2[0..ChunkSize];
    ChunkLocal(c1, c2, 0);
    assert c1[n - ChunkSize..n] == c2[n - ChunkSize..n];
    ChunkLocal(c1, c2, n - ChunkSize);
    FaultInAgree(f1, f2, 0, ChunkSize);
    FaultInAgree(f1, f2, n - ChunkSize, n);
    SameChunksSameHash(c1, f1, c2, f2);
  }
}
