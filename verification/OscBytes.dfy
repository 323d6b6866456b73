/** The byte conversions of WOscUtil: big-endian words, zero padding to multiples of four,
    and the padded strings and blobs made of them. */
module OscBytes {
  type byte = x: int | 0 <= x < 256

  const MAX_INT: int := 0x7FFF_FFFF
  const OSC_INT_SIZE: nat := 4
  const OSC_FLOAT_SIZE: nat := 4
  const BLOB_SIZE_SIZE: nat := 4

  /** A zero-terminated string, without its zero. */
  ghost predicate IsText(s: seq<byte>) {
    0 !in s
  }

  ghost predicate IsInt32(x: int) {
    -MAX_INT - 1 <= x <= MAX_INT
  }

  /** The two's complement of x, most significant byte first. */
  function IntBytes(x: int): (b: seq<byte>)
    ensures |b| == 4
  {
    var u := x % 0x1_0000_0000;
    var q := u / 0x100;
    var p := q / 0x100;
    [p / 0x100, p % 0x100, q % 0x100, u % 0x100]
  }

  function WordOf(b: seq<byte>): (u: int)
    requires |b| == 4
    ensures 0 <= u < 0x1_0000_0000
  {
    ((b[0] as int * 0x100 + b[1]) * 0x100 + b[2]) * 0x100 + b[3]
  }

  function IntOf(b: seq<byte>): (x: int)
    requires |b| == 4
    ensures IsInt32(x)
  {
    var u := WordOf(b);
    if u <= MAX_INT then u else u - 0x1_0000_0000
  }

  /** The most significant byte comes first, and negative numbers are complements. */
  lemma WordInNumbers(b: seq<byte>)
    requires |b| == 4
    ensures WordOf(b) == 16777216 * b[0] as int + 65536 * b[1] as int + 256 * b[2] as int + b[3]
    ensures IntOf(b) == WordOf(b) - if b[0] >= 128 then 4294967296 else 0
  {
  }

  lemma IntRoundTrip(x: int)
    requires IsInt32(x)
    ensures IntOf(IntBytes(x)) == x
  {
    var u := x % 0x1_0000_0000;
    assert u == if x < 0 then x + 0x1_0000_0000 else x;
    assert IntBytes(x) == IntBytes(u);
    hide IntBytes, WordOf;
    WordRoundTrip(u);
  }

  /** Floats are treated as their bit patterns. */
  lemma WordRoundTrip(u: int)
    requires 0 <= u < 0x1_0000_0000
    ensures WordOf(IntBytes(u)) == u
  {
  }

  lemma BytesRoundTrip(b: seq<byte>)
    requires |b| == 4
    ensures IntBytes(WordOf(b)) == b && IntBytes(IntOf(b)) == b
  {
    WordBytes(b);
    SameBytes(WordOf(b));
    hide WordOf, IntBytes;
  }

  lemma WordBytes(b: seq<byte>)
    requires |b| == 4
    ensures IntBytes(WordOf(b)) == b
  {
    Digits(b[0], b[1], b[2], b[3]);
    assert WordOf(b) % 0x1_0000_0000 == WordOf(b);
  }

  /** A negative number has the bytes of its complement. */
  lemma SameBytes(u: int)
    requires 0 <= u < 0x1_0000_0000
    ensures IntBytes(u - 0x1_0000_0000) == IntBytes(u)
  {
    assert (u - 0x1_0000_0000) % 0x1_0000_0000 == u == u % 0x1_0000_0000;
  }

  lemma Digits(b0: byte, b1: byte, b2: byte, b3: byte)
    ensures var p := b0 as int * 0x100 + b1; var q := p * 0x100 + b2; var u := q * 0x100 + b3;
            u / 0x100 == q && u % 0x100 == b3 && q / 0x100 == p && q % 0x100 == b2 && p / 0x100 == b0 && p % 0x100 == b1
  {
  }

  function Zeros(n: nat): (z: seq<byte>)
    ensures |z| == n && forall i | 0 <= i < n :: z[i] == 0
  {
    seq(n, i => 0)
  }

  /** Rounds up to a multiple of four; the remainder truncates as in C. */
  function GetSizeFourByteAligned(length: nat): (n: nat)
    ensures n % 4 == 0 && length <= n < length + 4
  {
    length + (4 - length % 4) % 4
  }

  /** A string with its zero, zero-padded to a multiple of four. */
  function Padded(s: seq<byte>): (b: seq<byte>)
    ensures |b| % 4 == 0 && |s| < |b| <= |s| + 4 && b[..|s|] == s && b[|s|] == 0
  {
    s + Zeros(GetSizeFourByteAligned(|s| + 1) - |s|)
  }

  /** Behind the string there are between one and four bytes, all of them zero. */
  lemma PaddedInNumbers(s: seq<byte>)
    ensures |Padded(s)| % 4 == 0 && 1 <= |Padded(s)| - |s| <= 4 && Padded(s)[..|s|] == s
    ensures forall i | |s| <= i < |Padded(s)| :: Padded(s)[i] == 0
  {
  }

  /** A blob: its data and what fills its buffer up to a multiple of four. */
  datatype Blob = Blob(data: seq<byte>, padding: seq<byte>)

  ghost predicate IsBlob(b: Blob) {
    |b.data| <= MAX_INT && |b.data| + |b.padding| == GetSizeFourByteAligned(|b.data|)
  }

  function BlobBytes(b: Blob): (bytes: seq<byte>)
    ensures |bytes| == BLOB_SIZE_SIZE + |b.data| + |b.padding|
  {
    IntBytes(|b.data|) + b.data + b.padding
  }

  // ----- reading strings

  /** Where the zero is that ends the string at pos. */
  function EndOf(b: seq<byte>, pos: nat): (e: nat)
    requires pos <= |b|
    ensures pos <= e <= |b| && 0 !in b[pos..e] && (e < |b| ==> b[e] == 0)
    decreases |b| - pos
  {
    if pos == |b| || b[pos] == 0 then pos else
      var e := EndOf(b, pos + 1);
      assert b[pos..e] == [b[pos]] + b[pos + 1..e];
      e
  }

  lemma EndUnique(b: seq<byte>, pos: nat, e: nat)
    requires pos <= e < |b| && b[e] == 0 && 0 !in b[pos..e]
    ensures EndOf(b, pos) == e
  {
    var d := EndOf(b, pos);
    assert forall i | pos <= i < e :: b[pos..e][i - pos] == b[i];
    assert forall i | pos <= i < d :: b[pos..d][i - pos] == b[i];
  }

  /** Reading a padded string back. */
  lemma PaddedReads(b: seq<byte>, pos: nat, s: seq<byte>)
    requires IsText(s) && pos + |Padded(s)| <= |b| && b[pos..pos + |Padded(s)|] == Padded(s)
    ensures EndOf(b, pos) == pos + |s| && b[pos..pos + |s|] == s
  {
    var p := Padded(s);
    assert forall i | 0 <= i < |p| :: b[pos + i] == b[pos..pos + |p|][i] == p[i];
    assert b[pos..pos + |s|] == p[..|s|];
    EndUnique(b, pos, pos + |s|);
  }

  // ----- writing into buffers

  /** Copies bytes to position pos. */
  method PutBytes(buffer: array<byte>, pos: nat, bytes: seq<byte>)
    requires pos + |bytes| <= buffer.Length
    modifies buffer
    ensures buffer[..pos + |bytes|] == old(buffer[..pos]) + bytes
    ensures buffer[pos + |bytes|..] == old(buffer[pos + |bytes|..])
  {
    var i := 0;
    while i < |bytes|
      invariant 0 <= i <= |bytes|
      invariant buffer[..pos + i] == old(buffer[..pos]) + bytes[..i]
      invariant buffer[pos + i..] == old(buffer[pos + i..])
    {
      buffer[pos + i] := bytes[i];
      assert buffer[..pos + i + 1] == buffer[..pos + i] + [bytes[i]];
      assert bytes[..i + 1] == bytes[..i] + [bytes[i]];
      assert buffer[pos + i + 1..] == old(buffer[pos + i..])[1..];
      i := i + 1;
    }
    assert bytes[..i] == bytes;
  }

  /** FillBufferWith<int>: the bytes of the word in reverse order of their significance. */
  method FillBufferWith(buffer: array<byte>, pos: nat, x: int)
    requires pos + 4 <= buffer.Length
    modifies buffer
    ensures buffer[..pos + 4] == old(buffer[..pos]) + IntBytes(x)
    ensures buffer[pos + 4..] == old(buffer[pos + 4..])
  {
    var rest := x % 0x1_0000_0000;
    var i := 3;
    ghost var b := IntBytes(x);
    WordHigh(rest);
    while i >= 0
      invariant -1 <= i <= 3
      invariant rest == High(x % 0x1_0000_0000, i + 1)
      invariant forall j | i < j < 4 :: buffer[pos + j] == b[j]
      invariant forall j | 0 <= j < buffer.Length && !(pos + i < j < pos + 4) :: buffer[j] == old(buffer[j])
    {
      WordDigit(x, i);
      buffer[pos + i] := rest % 0x100;
      rest := rest / 0x100;
      i := i - 1;
    }
    assert buffer[..pos + 4] == old(buffer[..pos]) + b;
  }

  /** The value of the first n bytes of a word. */
  ghost function High(u: int, n: int): int {
    if n >= 4 then u else if n == 3 then u / 0x100 else if n == 2 then u / 0x100 / 0x100
    else if n == 1 then u / 0x100 / 0x100 / 0x100 else 0
  }

  lemma WordHigh(u: int)
    ensures High(u, 4) == u
  {
  }

  lemma WordDigit(x: int, i: int)
    requires 0 <= i < 4
    ensures var u := x % 0x1_0000_0000;
            High(u, i + 1) % 0x100 == IntBytes(x)[i] && High(u, i + 1) / 0x100 == High(u, i)
  {
  }

  /** BufferTo: the first byte is the most significant one. */
  method BufferToWord(buffer: seq<byte>, pos: nat) returns (u: int)
    requires pos + 4 <= |buffer|
    ensures u == WordOf(buffer[pos..pos + 4])
  {
    u := 0;
    var i := 0;
    ghost var b := buffer[pos..pos + 4];
    while i < 4
      invariant 0 <= i <= 4
      invariant u == High(WordOf(b), i)
    {
      WordNext(b, i);
      u := u * 0x100 + buffer[pos + i];
      i := i + 1;
    }
  }

  method BufferToInt(buffer: seq<byte>, pos: nat) returns (x: int)
    requires pos + 4 <= |buffer|
    ensures x == IntOf(buffer[pos..pos + 4])
  {
    var u := BufferToWord(buffer, pos);
    x := if u <= MAX_INT then u else u - 0x1_0000_0000;
  }

  lemma WordNext(b: seq<byte>, i: int)
    requires |b| == 4 && 0 <= i < 4
    ensures High(WordOf(b), i + 1) == High(WordOf(b), i) * 0x100 + b[i]
  {
    Digits(b[0], b[1], b[2], b[3]);
  }

  /** PadStringWithZeros: the string, its zero, and zeros up to a multiple of four. */
  method PadStringWithZeros(dest: array<byte>, pos: nat, source: seq<byte>)
    requires pos + |Padded(source)| <= dest.Length
    modifies dest
    ensures dest[..pos + |Padded(source)|] == old(dest[..pos]) + Padded(source)
    ensures dest[pos + |Padded(source)|..] == old(dest[pos + |Padded(source)|..])
  {
    var length := |source| + 1;
    var oscLength := GetSizeFourByteAligned(length);
    PutBytes(dest, pos, source + [0]);
    ghost var before := old(dest[..pos]);
    var i := length;
    while i < oscLength
      invariant length <= i <= oscLength
      invariant dest[..pos + i] == before + source + Zeros(i - |source|)
      invariant dest[pos + i..] == old(dest[pos + i..])
    {
      dest[pos + i] := 0;
      assert dest[..pos + i + 1] == dest[..pos + i] + [0];
      assert dest[pos + i + 1..] == old(dest[pos + i..])[1..];
      i := i + 1;
    }
  }

  /** Zeros from a position to the end. */
  method FillZeros(buffer: array<byte>, start: nat)
    requires start <= buffer.Length
    modifies buffer
    ensures buffer[..] == old(buffer[..start]) + Zeros(buffer.Length - start)
  {
    var i := start;
    while i < buffer.Length
      invariant start <= i <= buffer.Length
      invariant buffer[..i] == old(buffer[..start]) + Zeros(i - start)
    {
      buffer[i] := 0;
      assert buffer[..i + 1] == buffer[..i] + [0];
      i := i + 1;
    }
    assert buffer[..i] == buffer[..];
  }

  // ----- blobs

  function ZeroPadded(data: seq<byte>): Blob {
    Blob(data, Zeros(GetSizeFourByteAligned(|data|) - |data|))
  }

  /** The size of the data, the data, and zeros up to a multiple of four. */
  ghost predicate HoldsData(b: seq<byte>, data: seq<byte>) {
    && |b| % 4 == 0 && 4 + |data| <= |b| < 8 + |data|
    && IntOf(b[..4]) == |data| && b[4..4 + |data|] == data
    && forall i | 4 + |data| <= i < |b| :: b[i] == 0
  }

  lemma ZeroPaddedHolds(data: seq<byte>)
    requires |data| <= MAX_INT
    ensures HoldsData(BlobBytes(ZeroPadded(data)), data) && IsBlob(ZeroPadded(data))
  {
    hide IntBytes, IntOf;
    IntRoundTrip(|data|);
    var b := BlobBytes(ZeroPadded(data));
    assert b[..4] == IntBytes(|data|) && b[4..4 + |data|] == data;
  }

  /** A blob's buffer. */
  method BlobFromData(data: seq<byte>) returns (buffer: array<byte>)
    requires |data| <= MAX_INT
    ensures fresh(buffer) && buffer[..] == BlobBytes(ZeroPadded(data)) && IsBlob(ZeroPadded(data))
    ensures HoldsData(buffer[..], data)
  {
    hide IntBytes, HoldsData, IsBlob;
    ZeroPaddedHolds(data);
    var bufferLen := GetSizeFourByteAligned(|data|) + BLOB_SIZE_SIZE;
    buffer := new byte[bufferLen];
    FillBufferWith(buffer, 0, |data|);
    PutBytes(buffer, BLOB_SIZE_SIZE, data);
    ghost var head := IntBytes(|data|) + data;
    assert buffer[..|head|] == head;
    FillZeros(buffer, |data| + BLOB_SIZE_SIZE);
  }

  /** A blob read from its binary form, its padding included. */
  method BlobFromBinary(b: seq<byte>, pos: nat) returns (blob: Blob)
    requires pos + 4 <= |b| && IntOf(b[pos..pos + 4]) >= 0
    requires pos + 4 + GetSizeFourByteAligned(IntOf(b[pos..pos + 4])) <= |b|
    ensures var n := IntOf(b[pos..pos + 4]);
            blob == Blob(b[pos + 4..pos + 4 + n], b[pos + 4 + n..pos + 4 + GetSizeFourByteAligned(n)])
    ensures IsBlob(blob) && BlobBytes(blob) == b[pos..pos + |BlobBytes(blob)|]
  {
    hide IntOf, IntBytes, WordOf;
    var n := BufferToInt(b, pos);
    var m := GetSizeFourByteAligned(n);
    blob := Blob(b[pos + 4..pos + 4 + n], b[pos + 4 + n..pos + 4 + m]);
    BytesRoundTrip(b[pos..pos + 4]);
    assert b[pos..pos + 4 + m] == b[pos..pos + 4] + b[pos + 4..pos + 4 + n] + b[pos + 4 + n..pos + 4 + m];
  }

  /** A string object: a buffer that is always padded. */
  class OscString {
    var buffer: array<byte>
    ghost var text: seq<byte>

    ghost predicate Valid()
      reads this, buffer
    {
      IsText(text) && buffer[..] == Padded(text)
    }

    constructor (string_: seq<byte>)
      requires IsText(string_)
      ensures Valid() && fresh(buffer) && text == string_
    {
      var b := new byte[GetSizeFourByteAligned(|string_| + 1)];
      PadStringWithZeros(b, 0, string_);
      assert b[..] == b[..0 + |Padded(string_)|] && b[..0] == [];
      buffer, text := b, string_;
    }

    /** strlen */
    method Length() returns (n: nat)
      requires Valid()
      ensures n == |text|
    {
      n := 0;
      TextEnds(text);
      assert forall i | 0 <= i <= |text| :: buffer[i] == buffer[..][i] == Padded(text)[i];
      while buffer[n] != 0
        invariant n <= |text|
        decreases |text| - n
      {
        n := n + 1;
      }
    }

    static lemma TextEnds(s: seq<byte>)
      requires IsText(s)
      ensures forall i | 0 <= i < |s| :: Padded(s)[i] == s[i] && s[i] != 0
    {
      assert forall i | 0 <= i < |s| :: s[i] in s;
    }

    /** operator+=: the texts are joined and padded anew. */
    method Append(rhs: OscString)
      requires Valid() && rhs.Valid()
      modifies this
      ensures Valid() && fresh(buffer) && text == old(text + rhs.text)
    {
      var lenLhs := Length();
      var lenRhs := rhs.Length();
      var newLen := GetSizeFourByteAligned(lenRhs + lenLhs + 1);
      var newBuf := new byte[newLen];
      TextPrefix(text, lenLhs);
      TextPrefix(rhs.text, lenRhs);
      ghost var both := text + rhs.text;
      PaddedTo(both, newLen);
      hide GetSizeFourByteAligned, Zeros, Padded;
      PutBytes(newBuf, 0, buffer[..lenLhs]);
      assert newBuf[..lenLhs] == text;
      PutBytes(newBuf, lenLhs, rhs.buffer[..lenRhs]);
      assert newBuf[..lenLhs + lenRhs] == both;
      FillZeros(newBuf, lenLhs + lenRhs);
      buffer, text := newBuf, both;
    }

    static lemma PaddedTo(s: seq<byte>, n: nat)
      requires n == GetSizeFourByteAligned(|s| + 1)
      ensures n >= |s| && Padded(s) == s + Zeros(n - |s|)
    {
    }

    static lemma TextPrefix(s: seq<byte>, n: nat)
      requires n == |s|
      ensures Padded(s)[..n] == s
    {
    }
  }
}
