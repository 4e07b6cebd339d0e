/**
 * Reading an element from text (src/from_str.rs): `from_str` takes up to
 * 112 hexadecimal digits, `from_str_bin` up to 448 binary digits.  The
 * string is cut into word-sized chunks from the right: the rightmost chunk
 * is word 0, and the leading characters that do not fill a whole chunk
 * become the word after the last full one.  Each chunk goes through
 * `from_str_radix`, and the fourteen-word buffer is reduced by `modulo`.
 */
module Parsing {
  import opened Core
  import opened Poly
  import opened FieldSpec
  import opened Words
  import opened GF2

  /** `GF2ElementFromStrError`. */
  datatype GF2ElementFromStrError = ConversionError | NotAnElementError

  /** `From<ParseIntError>`: every integer parse error is a conversion error. */
  function FromParseIntError(e: ParseIntError): (r: GF2ElementFromStrError)
    ensures r == ConversionError
  {
    ConversionError
  }

  /** Number of chunks: the full ones and, if any characters remain, one short one. */
  function NumChunks(len: nat, w: nat): nat
    requires w > 0
  {
    len / w + (if len % w > 0 then 1 else 0)
  }

  lemma ChunkBounds(len: nat, w: nat, j: nat)
    requires w > 0 && j < len / w
    ensures len % w + (j + 1) * w <= len
  {
    MulMono(w, len / w, j + 1);
    DivModParts(len, w);
  }

  /**
   * Chunk i counted from the right: for i below len / w, the w characters
   * ending (i * w) characters before the end; after them the len % w
   * leading characters.
   */
  function Chunk(s: string, w: nat, i: nat): (c: string)
    requires w > 0 && i < NumChunks(|s|, w)
    ensures 0 < |c| <= w
  {
    var extra, fulls := |s| % w, |s| / w;
    if i < fulls then
      ChunkBounds(|s|, w, fulls - 1 - i);
      assert (fulls - 1 - i + 1) * w == (fulls - 1 - i) * w + w;
      s[extra + (fulls - 1 - i) * w .. extra + (fulls - i) * w]
    else
      s[..extra]
  }

  /**
   * What `from_str` (w = 16, radix 16, limit 112) and `from_str_bin`
   * (w = 64, radix 2, limit 448) hand to `modulo`: chunk k's value at word k
   * and zeros above; or the error they return.  Which chunk fails first
   * does not matter, as every `ParseIntError` becomes `ConversionError`.
   */
  function ParseWords(s: string, w: nat, radix: nat, limit: nat): (r: Result<seq<nat>, GF2ElementFromStrError>)
    requires w > 0 && 2 <= radix <= 36 && limit <= DIM * w
    ensures r.Ok? ==> |r.value| == 2 * DIM && forall i :: 0 <= i < 2 * DIM ==> r.value[i] < U64
  {
    if |s| > limit then Err(NotAnElementError)
    else
      var n := NumChunks(|s|, w);
      if exists k :: 0 <= k < n && FromStrRadix(Chunk(s, w, k), radix).Err? then
        Err(ConversionError)
      else
        Ok(seq(2 * DIM, k requires 0 <= k < 2 * DIM => if k < n then FromStrRadix(Chunk(s, w, k), radix).value else 0))
  }

  /** The parsed numbers as 64-bit words. */
  function ToWords(ns: seq<nat>): (r: seq<bv64>)
    requires forall i :: 0 <= i < |ns| ==> ns[i] < U64
    ensures |r| == |ns| && forall i :: 0 <= i < |ns| ==> r[i] == ns[i] as bv64
  {
    seq(|ns|, i requires 0 <= i < |ns| => ns[i] as bv64)
  }

  /** The fourteen-word buffer handed to `modulo`. */
  function Buffer(s: string, w: nat, radix: nat, limit: nat): (r: seq<bv64>)
    requires w > 0 && 2 <= radix <= 36 && limit <= DIM * w && ParseWords(s, w, radix, limit).Ok?
    ensures |r| == 2 * DIM
  {
    ToWords(ParseWords(s, w, radix, limit).value)
  }

  /** The shared body of `from_str` and `from_str_bin`. */
  method ParseElement(s: string, w: nat, radix: nat, limit: nat) returns (r: Result<GF2Element, GF2ElementFromStrError>)
    requires w > 0 && 2 <= radix <= 36 && limit <= DIM * w
    ensures ParseWords(s, w, radix, limit).Err? ==> r == Err(ParseWords(s, w, radix, limit).error)
    ensures ParseWords(s, w, radix, limit).Ok? ==>
      r.Ok? && r.value.Value() == ModF(Elem(Buffer(s, w, radix, limit)))
    ensures ParseWords(s, w, radix, limit).Ok? && Degree(Elem(Buffer(s, w, radix, limit))) < M ==>
      r.Ok? && r.value.data == Buffer(s, w, radix, limit)[..DIM]
  {
    if |s| > limit {
      return Err(NotAnElementError);
    }
    DivBelow(|s|, w, DIM + 1);
    var data := new nat[2 * DIM](_ => 0);
    var e := ReadChunks(s, w, radix, data);
    if e.Some? {
      return Err(FromParseIntError(e.value));
    }
    assert data[..] == ParseWords(s, w, radix, limit).value;
    var words := Modulo(ToWords(data[..]));
    r := Ok(GF2Element(words));
  }

  /** Chunks 0 .. i-1 parse, and the buffer holds their values followed by zeros. */
  ghost predicate Filled(s: string, w: nat, radix: nat, buf: seq<nat>, i: nat)
    requires w > 0 && 2 <= radix <= 36 && i <= NumChunks(|s|, w)
  {
    && (forall k :: 0 <= k < i ==> FromStrRadix(Chunk(s, w, k), radix).Ok?)
    && (forall k :: 0 <= k < |buf| ==> buf[k] == if k < i then FromStrRadix(Chunk(s, w, k), radix).value else 0)
  }

  /** The chunk loop: fills the buffer word by word, or stops at the first chunk that fails. */
  method ReadChunks(s: string, w: nat, radix: nat, data: array<nat>) returns (e: Option<ParseIntError>)
    requires w > 0 && 2 <= radix <= 36 && NumChunks(|s|, w) <= 2 * DIM
    requires data.Length == 2 * DIM && forall k :: 0 <= k < data.Length ==> data[k] == 0
    modifies data
    ensures e.None? <==> forall k :: 0 <= k < NumChunks(|s|, w) ==> FromStrRadix(Chunk(s, w, k), radix).Ok?
    ensures e.None? ==> Filled(s, w, radix, data[..], NumChunks(|s|, w))
  {
    var extra, fulls := |s| % w, |s| / w;
    var i := 0;
    var j := fulls;
    assert NumChunks(|s|, w) == if extra > 0 then fulls + 1 else fulls;
    while j > 0
      invariant 0 <= j <= fulls && i == fulls - j
      invariant Filled(s, w, radix, data[..], i)
    {
      j := j - 1;
      var lo := FullChunkStart(s, w, j);
      e := ReadChunk(s, w, radix, data, i, s[lo .. lo + w]);
      if e.Some? {
        return;
      }
      i := i + 1;
    }
    if extra > 0 {
      LeadingChunk(s, w);
      e := ReadChunk(s, w, radix, data, i, s[0..extra]);
      if e.Some? {
        return;
      }
    }
    e := None;
  }

  /** `data[i] = usize::from_str_radix(chunk, radix)?` for chunk i. */
  method ReadChunk(s: string, w: nat, radix: nat, data: array<nat>, i: nat, chunk: string) returns (e: Option<ParseIntError>)
    requires w > 0 && 2 <= radix <= 36 && i < NumChunks(|s|, w) <= data.Length && chunk == Chunk(s, w, i)
    requires Filled(s, w, radix, data[..], i)
    modifies data
    ensures e.None? ==> Filled(s, w, radix, data[..], i + 1)
    ensures e.None? == FromStrRadix(Chunk(s, w, i), radix).Ok?
  {
    var v := FromStrRadix(chunk, radix);
    if v.Err? {
      return Some(v.error);
    }
    data[i] := v.value;
    return None;
  }

  /** `extra + j * w`, where full chunk j from the left spans w characters: it is chunk fulls - 1 - j. */
  function FullChunkStart(s: string, w: nat, j: nat): (lo: nat)
    requires w > 0 && j < |s| / w
    ensures lo + w <= |s| && s[lo .. lo + w] == Chunk(s, w, |s| / w - 1 - j)
  {
    ChunkBounds(|s|, w, j);
    assert (j + 1) * w == j * w + w;
    |s| % w + j * w
  }

  /** The leading characters short of a full chunk are the last chunk. */
  lemma LeadingChunk(s: string, w: nat)
    requires w > 0 && |s| % w > 0
    ensures NumChunks(|s|, w) == |s| / w + 1 && s[0..|s| % w] == Chunk(s, w, |s| / w)
  {
  }

  /** The empty string has no chunks: the buffer is all zeros. */
  lemma EmptyBuffer(w: nat, radix: nat, limit: nat)
    requires w > 0 && 2 <= radix <= 36 && limit <= DIM * w
    ensures ParseWords("", w, radix, limit).Ok?
    ensures Buffer("", w, radix, limit) == [0, 0, 0, 0, 0, 0, 0, 0, 0, 0, 0, 0, 0, 0]
    ensures Degree(Elem(Buffer("", w, radix, limit))) < M
  {
    EmptyWords(w, radix, limit);
    var b := Buffer("", w, radix, limit);
    assert forall k :: 0 <= k < 2 * DIM ==> b[k] == 0;
    ElemZero(b);
  }

  lemma EmptyWords(w: nat, radix: nat, limit: nat)
    requires w > 0 && 2 <= radix <= 36 && limit <= DIM * w
    ensures ParseWords("", w, radix, limit).Ok?
    ensures forall k :: 0 <= k < 2 * DIM ==> ParseWords("", w, radix, limit).value[k] == 0
  {
    assert NumChunks(0, w) == 0;
  }

  /** `from_str`: hexadecimal, at most DIM * 64 / 4 = 112 digits. */
  method FromStr(s: string) returns (r: Result<GF2Element, GF2ElementFromStrError>)
    ensures r == Err(NotAnElementError) <==> |s| > 112
    ensures ParseWords(s, 16, 16, 112).Err? ==> r == Err(ParseWords(s, 16, 16, 112).error)
    ensures ParseWords(s, 16, 16, 112).Ok? ==>
      r.Ok? && r.value.Value() == ModF(Elem(Buffer(s, 16, 16, 112)))
    ensures ParseWords(s, 16, 16, 112).Ok? && Degree(Elem(Buffer(s, 16, 16, 112))) < M ==>
      r.Ok? && r.value.data == Buffer(s, 16, 16, 112)[..DIM]
  {
    r := ParseElement(s, 16, 16, DIM * 64 / 4);
  }

  /** `from_str_bin`: binary, at most DIM * 64 = 448 digits. */
  method FromStrBin(s: string) returns (r: Result<GF2Element, GF2ElementFromStrError>)
    ensures r == Err(NotAnElementError) <==> |s| > 448
    ensures ParseWords(s, 64, 2, 448).Err? ==> r == Err(ParseWords(s, 64, 2, 448).error)
    ensures ParseWords(s, 64, 2, 448).Ok? ==>
      r.Ok? && r.value.Value() == ModF(Elem(Buffer(s, 64, 2, 448)))
    ensures ParseWords(s, 64, 2, 448).Ok? && Degree(Elem(Buffer(s, 64, 2, 448))) < M ==>
      r.Ok? && r.value.data == Buffer(s, 64, 2, 448)[..DIM]
  {
    r := ParseElement(s, 64, 2, DIM * 64);
  }

  /** `"".parse()` is ZERO. */
  method FromStrEmpty() returns (r: Result<GF2Element, GF2ElementFromStrError>)
    ensures r == Ok(GF2Element.ZERO)
  {
    r := FromStr("");
    EmptyBuffer(16, 16, 112);
    assert Buffer("", 16, 16, 112)[..DIM] == GF2Element.ZERO.data;
  }

  /** `from_str_bin("")` is ZERO. */
  method FromStrBinEmpty() returns (r: Result<GF2Element, GF2ElementFromStrError>)
    ensures r == Ok(GF2Element.ZERO)
  {
    r := FromStrBin("");
    EmptyBuffer(64, 2, 448);
    assert Buffer("", 64, 2, 448)[..DIM] == GF2Element.ZERO.data;
  }
}
