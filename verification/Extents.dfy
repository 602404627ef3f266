/** Byte ranges of blocks on disk, as both generations of the analyzer keep them:
    a start block (`lba`) that identifies the file, and a half-open range of bytes in it. */
module Extents {

  datatype Extent = Extent(lba: int, off: int, len: int) {
    /** The offset one past the last byte. */
    function End(): int { off + len }
  }

  /** A byte of a file, or a point between two bytes: a range holds its bytes, and holds
      the points from its offset to its end, both included. */
  datatype Spot = Byte(lba: int, at: int) | Point(lba: int, at: int)

  ghost predicate Has(e: Extent, p: Spot) {
    e.lba == p.lba && e.off <= p.at && if p.Byte? then p.at < e.End() else p.at <= e.End()
  }

  ghost predicate Covers(s: seq<Extent>, p: Spot) {
    exists e :: e in s && Has(e, p)
  }

  ghost predicate SameBytes(s: seq<Extent>, t: seq<Extent>) {
    forall lba, b :: Covers(s, Byte(lba, b)) <==> Covers(t, Byte(lba, b))
  }

  /** `d` may be placed before `e`: strictly smaller in (lba, off). */
  predicate Below(d: Extent, e: Extent) {
    d.lba < e.lba || (d.lba == e.lba && d.off < e.off)
  }

  ghost predicate Sorted(s: seq<Extent>) {
    forall i, j :: 0 <= i < j < |s| ==> Below(s[i], s[j])
  }

  ghost predicate NonNegative(s: seq<Extent>) {
    forall e :: e in s ==> 0 <= e.len
  }

  ghost predicate Positive(s: seq<Extent>) {
    forall e :: e in s ==> 0 < e.len
  }

  /** `d` ends strictly before `e` starts: not overlapping, and not touching either. */
  predicate Apart(d: Extent, e: Extent) {
    d.lba < e.lba || (d.lba == e.lba && d.End() < e.off)
  }

  ghost predicate Separated(s: seq<Extent>) {
    forall i, j :: 0 <= i < j < |s| ==> Apart(s[i], s[j])
  }

  /** The normal form of a set of bytes: sorted, nonempty ranges with gaps between them. */
  ghost predicate Canonical(s: seq<Extent>) {
    Positive(s) && Separated(s)
  }

  lemma CoversCons(e: Extent, s: seq<Extent>, p: Spot)
    ensures Covers([e] + s, p) <==> Has(e, p) || Covers(s, p)
  {
    if Covers([e] + s, p) {
      var d :| d in [e] + s && Has(d, p);
      assert d == e || d in s;
    }
    if Has(e, p) {
      assert e in [e] + s;
    }
    if Covers(s, p) {
      var d :| d in s && Has(d, p);
      assert d in [e] + s;
    }
  }

  lemma CoversSplit(s: seq<Extent>, p: Spot)
    requires s != []
    ensures Covers(s, p) <==> Has(s[0], p) || Covers(s[1..], p)
  {
    CoversCons(s[0], s[1..], p);
    assert s == [s[0]] + s[1..];
  }

  /** Two lists in normal form that cover the same bytes are the same list. */
  lemma {:induction false} CanonicalIsUnique(s: seq<Extent>, t: seq<Extent>)
    requires Canonical(s) && Canonical(t) && SameBytes(s, t)
    ensures s == t
  {
    HeadIsCovered(s);
    HeadIsCovered(t);
    if s == [] || t == [] {
    } else {
      HeadIsLeast(s, t);
      HeadIsLeast(t, s);
      HeadIsNotShorter(s, t);
      HeadIsNotShorter(t, s);
      assert s[0] == t[0];
      forall lba, b
        ensures Covers(s[1..], Byte(lba, b)) <==> Covers(t[1..], Byte(lba, b))
      {
        TailCovers(s, Byte(lba, b));
        TailCovers(t, Byte(lba, b));
      }
      CanonicalIsUnique(s[1..], t[1..]);
      assert s == [s[0]] + s[1..] && t == [t[0]] + t[1..];
    }
  }

  lemma HeadIsCovered(s: seq<Extent>)
    requires Positive(s)
    ensures s == [] || Covers(s, FirstByte(s))
  {
    if s != [] { assert Has(s[0], FirstByte(s)); }
  }

  ghost function FirstByte(s: seq<Extent>): Spot
    requires s != []
  {
    Byte(s[0].lba, s[0].off)
  }

  /** No byte covered by a normal form lies before its first extent. */
  lemma HeadIsLeast(s: seq<Extent>, t: seq<Extent>)
    requires Canonical(s) && Canonical(t) && s != [] && t != [] && SameBytes(s, t)
    ensures s[0].lba < t[0].lba || (s[0].lba == t[0].lba && s[0].off <= t[0].off)
  {
    var p := FirstByte(t);
    assert Has(t[0], p) && Covers(t, p);
    assert Covers(s, p);
    var k :| 0 <= k < |s| && Has(s[k], p);
    if k > 0 { assert Apart(s[0], s[k]); }
  }

  /** The byte just past the first extent of a normal form is not covered. */
  lemma EndIsFree(s: seq<Extent>)
    requires Canonical(s) && s != []
    ensures !Covers(s, Byte(s[0].lba, s[0].End()))
  {
    forall k | 0 <= k < |s|
      ensures !Has(s[k], Byte(s[0].lba, s[0].End()))
    {
      if k > 0 { assert Apart(s[0], s[k]); }
    }
  }

  lemma HeadIsNotShorter(s: seq<Extent>, t: seq<Extent>)
    requires Canonical(s) && Canonical(t) && s != [] && t != [] && SameBytes(s, t)
    requires FirstByte(s) == FirstByte(t)
    ensures s[0].len >= t[0].len
  {
    EndIsFree(s);
    var p := Byte(s[0].lba, s[0].End());
    assert !Covers(t, p);
    assert !Has(t[0], p);
  }

  lemma TailCovers(s: seq<Extent>, p: Spot)
    requires Canonical(s) && s != [] && p.Byte?
    ensures Covers(s[1..], p) <==> Covers(s, p) && !Has(s[0], p)
  {
    CoversSplit(s, p);
    forall d | d in s[1..]
      ensures !(Has(s[0], p) && Has(d, p))
    {
      var k :| 0 < k < |s| && s[k] == d;
      assert Apart(s[0], s[k]);
    }
  }
}
