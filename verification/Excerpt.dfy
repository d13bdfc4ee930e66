/** The padded source excerpt of the review packs, cut from raw bytes. */
module Excerpt {
  import opened Options
  import opened Utf8

  datatype Location = Location(byteStart: nat, byteEnd: nat)

  /** `IndexError` is Python's, raised when the padded start lies beyond the bytes.
      `Lossy` stands for a text in which decoding put replacement characters. */
  datatype Excerpted = NoLocation | IndexError | Lossy | Text(text: string)

  function NewlinesToSpaces(s: string): string {
    seq(|s|, k requires 0 <= k < |s| => if s[k] == '\n' then ' ' else s[k])
  }

  /** `bytes.decode("utf-8", "replace").replace("\n", " ")`. */
  function Decoded(bytes: seq<Byte>): Excerpted {
    match Decode(bytes)
    case None => Lossy
    case Some(s) => Text(NewlinesToSpaces(s))
  }

  function Max(a: int, b: int): int { if a >= b then a else b }

  function Min(a: int, b: int): int { if a <= b then a else b }

  /** The nearest position at or before `from` that is 0 or no continuation byte. */
  ghost predicate AlignedDown(bytes: seq<Byte>, from: int, s: int) {
    && 0 <= s <= from && (s == 0 || (s < |bytes| && !IsContinuation(bytes[s])))
    && forall k | s < k <= from :: k < |bytes| && IsContinuation(bytes[k])
  }

  /** The nearest position at or after `from` that is no continuation byte. */
  ghost predicate AlignedUp(bytes: seq<Byte>, from: int, e: int) {
    && from <= e && (e >= |bytes| || (0 <= e && !IsContinuation(bytes[e])))
    && forall k | from <= k < e :: 0 <= k < |bytes| && IsContinuation(bytes[k])
  }

  /** The padded start is read and lies beyond the bytes. */
  predicate OverrunsStart(bytes: seq<Byte>, loc: Location, pad: nat) {
    var s0 := Max(0, loc.byteStart - pad);
    0 < s0 && |bytes| <= s0
  }

  method ExcerptOf(sourceBytes: seq<Byte>, loc: Option<Location>, pad: nat) returns (r: Excerpted, ghost s: int,
          ghost e: int)
    ensures loc == None <==> r == NoLocation
    ensures loc.Some? ==>
      var s0 := Max(0, loc.value.byteStart - pad);
      var e0 := Min(|sourceBytes|, loc.value.byteEnd + pad);
      && (r == IndexError <==> OverrunsStart(sourceBytes, loc.value, pad))
      && (r != IndexError ==> AlignedDown(sourceBytes, s0, s) && AlignedUp(sourceBytes, e0, e) && e <= |sourceBytes|
                              && r == Decoded(if s <= e then sourceBytes[s..e] else []))
  {
    s, e := 0, 0;
    if loc == None { return NoLocation, s, e; }
    var lo := Max(0, loc.value.byteStart - pad);
    var hi := Min(|sourceBytes|, loc.value.byteEnd + pad);
    if lo > 0 && lo >= |sourceBytes| { return IndexError, s, e; }
    ghost var s0, e0 := lo, hi;
    while lo > 0 && IsContinuation(sourceBytes[lo])
      invariant 0 <= lo <= s0 && (lo < |sourceBytes| || lo == 0)
      invariant forall k | lo < k <= s0 :: k < |sourceBytes| && IsContinuation(sourceBytes[k])
    {
      lo := lo - 1;
    }
    while hi < |sourceBytes| && IsContinuation(sourceBytes[hi])
      invariant e0 <= hi <= |sourceBytes|
      invariant forall k | e0 <= k < hi :: IsContinuation(sourceBytes[k])
    {
      hi := hi + 1;
    }
    s, e := lo, hi;
    r := Decoded(if lo <= hi then sourceBytes[lo..hi] else []);
  }

  /** For a location inside the bytes the index error arises exactly for an unpadded empty location at the
      end of a nonempty source; otherwise the search for the start ends on a character. */
  lemma {:induction false} IndexErrorIff(bytes: seq<Byte>, loc: Location, pad: nat) returns (s: nat)
    requires loc.byteStart <= loc.byteEnd <= |bytes|
    ensures OverrunsStart(bytes, loc, pad) <==> bytes != [] && loc.byteStart == |bytes| && pad == 0
    ensures !OverrunsStart(bytes, loc, pad) ==> AlignedDown(bytes, Max(0, loc.byteStart - pad), s)
  {
    var from := Max(0, loc.byteStart - pad);
    s := 0;
    if !OverrunsStart(bytes, loc, pad) { s := StartOf(bytes, from); }
  }

  lemma {:induction false} StartOf(bytes: seq<Byte>, from: nat) returns (s: nat)
    requires from == 0 || from < |bytes|
    ensures AlignedDown(bytes, from, s)
  {
    if from == 0 || !IsContinuation(bytes[from]) { s := from; } else { s := StartOf(bytes, from - 1); }
  }

  /** On valid UTF-8 an in-range location is excerpted on character boundaries: the window holds the
      whole location, grows each padded side by at most 3 bytes, and decodes to a run of the source's
      own characters. */
  lemma {:induction false} ExcerptIsARun(source: string, loc: Location, pad: nat, s: int, e: int)
    returns (p: nat, q: nat)
    requires var bytes := EncodeAll(source);
      && loc.byteStart <= loc.byteEnd <= |bytes|
      && AlignedDown(bytes, Max(0, loc.byteStart - pad), s) && AlignedUp(bytes, Min(|bytes|, loc.byteEnd + pad), e)
      && e <= |bytes|
    ensures 0 <= s <= loc.byteStart && loc.byteEnd <= e <= |EncodeAll(source)|
    ensures loc.byteStart - pad - 3 <= s <= Max(0, loc.byteStart - pad)
    ensures Min(|EncodeAll(source)|, loc.byteEnd + pad) <= e <= loc.byteEnd + pad + 3
    ensures p <= q <= |source| && s == Offset(source, p) && e == Offset(source, q)
    ensures Decoded(EncodeAll(source)[s..e]) == Text(NewlinesToSpaces(source[p..q]))
    ensures var text := Decoded(EncodeAll(source)[s..e]).text;
      |text| == q - p && forall k | 0 <= k < q - p :: text[k] == if source[p + k] == '\n' then ' ' else source[p + k]
  {
    var bytes := EncodeAll(source);
    var s0, e0 := Max(0, loc.byteStart - pad), Min(|bytes|, loc.byteEnd + pad);
    var lo, _ := BoundaryNear(source, s0);
    assert lo <= s;
    var _, hi := BoundaryNear(source, e0);
    assert e <= hi;
    if s == 0 { OffsetIsBoundary(source, 0); }
    p := BoundaryAt(source, s);
    q := BoundaryAt(source, e);
    if q < p { SplitAt(source, q, p); }
    SplitAt(source, p, q);
    DecodeInvertsEncode(source[p..q]);
  }
}
