/** The effect of insert and delete_range on the flat text, with the
    clamping of out-of-range offsets made explicit, and the facts that let a
    tree walk compute them one node at a time. */
module TextEdits {

  /** `x` pulled into `[0, n]`: a negative offset becomes 0 by an explicit
      `max(x, 0)`, and an offset past the end becomes `n`, which is the only
      half that a Python slice bound does by itself. */
  function Clamp(x: int, n: nat): (c: nat)
    ensures c <= n
    ensures 0 <= x <= n ==> c == x
    ensures x < 0 ==> c == 0
    ensures n < x ==> c == n
  {
    if x < 0 then 0 else if n < x then n else x
  }

  /** intersects: two ranges are apart only when one ends before the other
      starts, so ranges that merely touch intersect. */
  predicate Intersects(start1: int, end1: int, start2: int, end2: int)
  {
    !(end1 < start2 || end2 < start1)
  }

  ghost predicate InRange(x: int, lo: int, hi: int) { lo <= x <= hi }

  /** Two ranges intersect exactly when their closed hulls share a point. */
  lemma IntersectsMeansSharedPoint(start1: int, end1: int, start2: int, end2: int)
    requires start1 <= end1 && start2 <= end2
    ensures Intersects(start1, end1, start2, end2) <==>
            exists x :: InRange(x, start1, end1) && InRange(x, start2, end2)
  {
    if Intersects(start1, end1, start2, end2) {
      var x := if start1 < start2 then start2 else start1;
      assert InRange(x, start1, end1) && InRange(x, start2, end2);
    }
  }

  /** Regrouping the pieces of a text split around an empty middle. */
  lemma Regroup(l: string, before: string, after: string, r: string)
    ensures (l + before) + "" + (after + r) == l + (before + after) + r
  {
    assert (l + before) + "" == l + before;
  }

  /** `t` inserted into `s` at `loc`; a location past the end appends. */
  ghost function Spliced(s: string, t: string, loc: nat): string
  {
    var k := Clamp(loc, |s|);
    s[..k] + t + s[k..]
  }

  /** `s` with the characters in `[start, end)` removed; offsets outside the
      text are clamped to its ends. */
  ghost function Cut(s: string, start: int, end: int): string
  {
    s[..Clamp(start, |s|)] + s[Clamp(end, |s|)..]
  }

  /** The own-text step of delete_range for a text starting at offset `lo`:
      the overlap is cut out only when the range intersects the text's
      span. */
  ghost function DeletedText(s: string, lo: int, start: int, end: int): (r: string)
    ensures start <= end ==> |r| <= |s|
  {
    if Intersects(start, end, lo, lo + |s|) then Cut(s, start - lo, end - lo) else s
  }

  /** Inserting `t` and then deleting the range it occupies gives back the
      original text. */
  lemma CutUndoesSplice(s: string, t: string, loc: nat)
    requires loc <= |s|
    ensures Cut(Spliced(s, t, loc), loc, loc + |t|) == s
  {
    var u := Spliced(s, t, loc);
    assert u[..loc] == s[..loc];
    assert u[loc + |t|..] == s[loc..];
    assert s[..loc] + s[loc..] == s;
  }

  /** An insertion into a text made of three parts, at or before the end of
      the first part, lands in the first part. */
  lemma SplicedInFirst(a: string, b: string, c: string, t: string, loc: nat)
    requires loc <= |a|
    ensures Spliced(a + b + c, t, loc) == Spliced(a, t, loc) + b + c
  {
    var s := a + b + c;
    assert s[..loc] == a[..loc];
    assert s[loc..] == a[loc..] + b + c;
  }

  /** An insertion strictly inside the middle part splits it. */
  lemma SplicedInMiddle(a: string, b: string, c: string, t: string, loc: nat)
    requires |a| < loc < |a| + |b|
    ensures Spliced(a + b + c, t, loc) == a + b[..loc - |a|] + t + b[loc - |a|..] + c
  {
    var s := a + b + c;
    assert s[..loc] == a + b[..loc - |a|];
    assert s[loc..] == b[loc - |a|..] + c;
  }

  /** An insertion at or after the end of the middle part lands in the last
      part, its location shifted into that part's frame. */
  lemma SplicedInLast(a: string, b: string, c: string, t: string, loc: nat)
    requires |a| + |b| <= loc
    ensures Spliced(a + b + c, t, loc) == a + b + Spliced(c, t, loc - |a| - |b|)
  {
    var s := a + b + c;
    var k := Clamp(loc - |a| - |b|, |c|);
    assert Clamp(loc, |s|) == |a| + |b| + k;
    assert s[..|a| + |b| + k] == a + b + c[..k];
    assert s[|a| + |b| + k..] == c[k..];
  }

  /** Deleting from a concatenation deletes from each part, each part seeing
      the offsets shifted into its own frame. */
  lemma CutAppend(a: string, b: string, start: int, end: int)
    requires start <= end
    ensures Cut(a + b, start, end) == Cut(a, start, end) + Cut(b, start - |a|, end - |a|)
  {
    var s := a + b;
    var i, j := Clamp(start, |s|), Clamp(end, |s|);
    var ia, ja := Clamp(start, |a|), Clamp(end, |a|);
    var ib, jb := Clamp(start - |a|, |b|), Clamp(end - |a|, |b|);
    assert Cut(s, start, end) == s[..i] + s[j..];
    assert Cut(a, start, end) == a[..ia] + a[ja..];
    assert Cut(b, start - |a|, end - |a|) == b[..ib] + b[jb..];
    assert i == ia + ib && j == ja + jb;
    if j <= |a| {
      assert ib == 0 && jb == 0;
      assert s[..i] == a[..ia];
      assert s[j..] == a[ja..] + b;
    } else if i <= |a| {
      assert ib == 0 && ja == |a|;
      assert s[..i] == a[..ia];
      assert s[j..] == b[jb..];
    } else {
      assert ia == |a| && ja == |a|;
      assert s[..i] == a + b[..ib];
      assert s[j..] == b[jb..];
    }
  }

  /** A part of a text spanning `[lo, lo + |s|]` that the range does not
      intersect loses nothing, seen in its own frame. */
  lemma SkippedPart(s: string, lo: int, start: int, end: int)
    requires start <= end && !Intersects(start, end, lo, lo + |s|)
    ensures Cut(s, start - lo, end - lo) == s
  {
    CutOutside(s, start - lo, end - lo);
  }

  /** CutAppend for a text made of three parts. */
  lemma CutThree(a: string, b: string, c: string, start: int, end: int)
    requires start <= end
    ensures Cut(a + b + c, start, end) ==
            Cut(a, start, end) + Cut(b, start - |a|, end - |a|) +
            Cut(c, start - |a| - |b|, end - |a| - |b|)
  {
    CutAppend(a + b, c, start, end);
    CutAppend(a, b, start, end);
  }

  /** Three parts cut in their own frames join into the whole text cut. */
  lemma JoinCuts(x: string, y: string, z: string, a: string, b: string, c: string, start: int, end: int)
    requires start <= end
    requires x == Cut(a, start, end)
    requires y == Cut(b, start - |a|, end - |a|)
    requires z == Cut(c, start - |a| - |b|, end - |a| - |b|)
    ensures x + y + z == Cut(a + b + c, start, end)
  {
    CutThree(a, b, c, start, end);
  }

  /** A range whose ends clamp to the same offset deletes nothing. */
  lemma CutOutside(s: string, start: int, end: int)
    requires Clamp(start, |s|) == Clamp(end, |s|)
    ensures Cut(s, start, end) == s
  {
  }
}
