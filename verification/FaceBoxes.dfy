/** Overlap of detected faces, and the greedy choice of one face for each group of overlapping ones. */
module FaceBoxes {
  /** Boxes that share at least this part of their union show the same face. */
  const NMS_IOU: real := 0.3

  datatype Face = Face(score: real, x: real, y: real, w: real, h: real)

  function Max(a: real, b: real): real {
    if a < b then b else a
  }

  function Min(a: real, b: real): real {
    if b < a then b else a
  }

  function Area(w: real, h: real): real {
    w * h
  }

  function SharedWidth(a: Face, b: Face): real {
    Max(0.0, Min(a.x + a.w, b.x + b.w) - Max(a.x, b.x))
  }

  function SharedHeight(a: Face, b: Face): real {
    Max(0.0, Min(a.y + a.h, b.y + b.h) - Max(a.y, b.y))
  }

  function IntersectionOverUnion(a: Face, b: Face): real {
    var inter := Area(SharedWidth(a, b), SharedHeight(a, b));
    var union := Area(a.w, a.h) + Area(b.w, b.h) - inter;
    if union <= 0.0 then 0.0 else inter / union
  }

  predicate Overlap(a: Face, b: Face) {
    IntersectionOverUnion(a, b) >= NMS_IOU
  }

  lemma OverlapIsSymmetric(a: Face, b: Face)
    ensures IntersectionOverUnion(a, b) == IntersectionOverUnion(b, a)
  {
  }

  /** Products of sides that are not larger. */
  lemma SmallerArea(w: real, h: real, width: real, height: real)
    requires 0.0 <= w <= width && 0.0 <= h <= height
    ensures 0.0 <= Area(w, h) <= Area(width, height)
  {
  }

  /** The measure is a part of a whole, and 1 for a box with itself. */
  lemma OverlapIsPart(a: Face, b: Face)
    requires a.w >= 0.0 && a.h >= 0.0 && b.w >= 0.0 && b.h >= 0.0
    ensures 0.0 <= IntersectionOverUnion(a, b) <= 1.0
    ensures Area(a.w, a.h) > 0.0 ==> IntersectionOverUnion(a, a) == 1.0
  {
    hide Area;
    var w, h := SharedWidth(a, b), SharedHeight(a, b);
    SmallerArea(w, h, a.w, a.h);
    SmallerArea(w, h, b.w, b.h);
    var inter, union := Area(w, h), Area(a.w, a.h) + Area(b.w, b.h) - Area(w, h);
    if union > 0.0 {
      PartOfWhole(inter, union);
    }
    assert SharedWidth(a, a) == a.w && SharedHeight(a, a) == a.h;
    if Area(a.w, a.h) > 0.0 {
      WholeOfWhole(Area(a.w, a.h));
    }
  }

  /** The open intervals of two sides have in common an interval as long as what they share. */
  lemma CommonPoints(a: Face, b: Face, p: real)
    ensures var left, top := if a.x < b.x then b.x else a.x, if a.y < b.y then b.y else a.y;
            && (a.x < p < a.x + a.w && b.x < p < b.x + b.w <==> left < p < left + SharedWidth(a, b))
            && (a.y < p < a.y + a.h && b.y < p < b.y + b.h <==> top < p < top + SharedHeight(a, b))
  {
  }

  /** Boxes side by side, or one above the other, do not overlap. */
  lemma ApartMeansNone(a: Face, b: Face)
    requires a.x + a.w <= b.x || b.x + b.w <= a.x || a.y + a.h <= b.y || b.y + b.h <= a.y
    ensures IntersectionOverUnion(a, b) == 0.0 && !Overlap(a, b)
  {
    var w, h := SharedWidth(a, b), SharedHeight(a, b);
    assert w == 0.0 || h == 0.0;
    NoArea(w, h);
    hide Area;
    var union := Area(a.w, a.h) + Area(b.w, b.h) - Area(w, h);
    if union > 0.0 {
      PartOfWhole(0.0, union);
      NoneOf(union);
    }
  }

  lemma NoArea(w: real, h: real)
    requires w == 0.0 || h == 0.0
    ensures Area(w, h) == 0.0
  {
  }

  lemma NoneOf(whole: real)
    requires whole > 0.0
    ensures 0.0 / whole == 0.0
  {
  }

  /** A box inside another one covers the part of it that its area is. */
  lemma InsideIsPart(a: Face, b: Face)
    requires b.x <= a.x && a.x + a.w <= b.x + b.w && b.y <= a.y && a.y + a.h <= b.y + b.h
    requires a.w >= 0.0 && a.h >= 0.0 && Area(b.w, b.h) > 0.0
    ensures IntersectionOverUnion(a, b) == Area(a.w, a.h) / Area(b.w, b.h)
  {
    assert SharedWidth(a, b) == a.w && SharedHeight(a, b) == a.h;
    hide Area;
  }

  /** Of two boxes of one size beside each other, the second shifted, both show one face up to 7/13 of the width. */
  lemma ShiftedOverlap(a: Face, shift: real)
    requires a.w > 0.0 && a.h > 0.0 && 0.0 <= shift <= a.w
    ensures Overlap(a, a.(x := a.x + shift)) <==> 13.0 * shift <= 7.0 * a.w
  {
    var b := a.(x := a.x + shift);
    assert SharedWidth(a, b) == a.w - shift && SharedHeight(a, b) == a.h;
    var inter, union := Area(a.w - shift, a.h), Area(a.w, a.h) + Area(a.w, a.h) - Area(a.w - shift, a.h);
    Areas(a.w, a.h, shift);
    hide Area;
    AtLeastPart(inter, union);
  }

  lemma Areas(w: real, h: real, shift: real)
    requires w > 0.0 && h > 0.0 && 0.0 <= shift <= w
    ensures var inter := Area(w - shift, h);
            var union := Area(w, h) + Area(w, h) - inter;
            union > 0.0 && (inter >= 0.3 * union <==> 13.0 * shift <= 7.0 * w)
  {
    var inter := Area(w - shift, h);
    var union := Area(w, h) + Area(w, h) - inter;
    assert union == Area(w + shift, h);
    assert inter - 0.3 * union == Area(0.7 * w - 1.3 * shift, h);
    Sign(0.7 * w - 1.3 * shift, h);
    Sign(w + shift, h);
  }

  lemma Sign(w: real, h: real)
    requires h > 0.0
    ensures Area(w, h) >= 0.0 <==> w >= 0.0
    ensures w > 0.0 ==> Area(w, h) > 0.0
  {
  }

  lemma AtLeastPart(part: real, whole: real)
    requires whole > 0.0
    ensures part / whole >= 0.3 <==> part >= 0.3 * whole
  {
    var q := part / whole;
    assert part == q * whole;
    if q >= 0.3 {
      assert (q - 0.3) * whole >= 0.0;
    } else {
      assert (0.3 - q) * whole > 0.0;
    }
  }

  lemma WholeOfWhole(whole: real)
    requires whole > 0.0
    ensures whole / whole == 1.0
  {
  }

  lemma PartOfWhole(part: real, whole: real)
    requires 0.0 <= part <= whole && 0.0 < whole
    ensures 0.0 <= part / whole <= 1.0
  {
  }

  // ---------- the greedy choice ----------

  predicate Descending(faces: seq<Face>) {
    forall i, j :: 0 <= i < j < |faces| ==> faces[i].score >= faces[j].score
  }

  /** No two chosen faces overlap, and every other one overlaps a chosen face before it. */
  ghost predicate Chosen(faces: seq<Face>, ids: set<nat>) {
    && (forall i :: i in ids ==> i < |faces|)
    && (forall i, j :: i in ids && j in ids && j < i ==> !Overlap(faces[i], faces[j]))
    && (forall i :: 0 <= i < |faces| && i !in ids ==> exists j :: j in ids && j < i && Overlap(faces[i], faces[j]))
  }

  /** There is only one such choice. */
  lemma {:induction false} ChoiceIsUnique(faces: seq<Face>, a: set<nat>, b: set<nat>, n: nat)
    requires Chosen(faces, a) && Chosen(faces, b) && n <= |faces|
    ensures forall i: nat :: i < n ==> (i in a <==> i in b)
  {
    if n > 0 {
      ChoiceIsUnique(faces, a, b, n - 1);
    }
  }

  /** The faces at some positions, in order. */
  function At(faces: seq<Face>, ids: seq<nat>): (r: seq<Face>)
    requires forall k :: 0 <= k < |ids| ==> ids[k] < |faces|
    ensures |r| == |ids|
  {
    seq(|ids|, k requires 0 <= k < |ids| => faces[ids[k]])
  }

  /** The choice among the first faces goes on with the next one. */
  lemma ChosenMore(faces: seq<Face>, ids: set<nat>, i: nat)
    requires i < |faces| && Chosen(faces[..i], ids)
    ensures (forall j :: j in ids ==> j < i && !Overlap(faces[i], faces[j])) ==> Chosen(faces[..i + 1], ids + {i})
    ensures (exists j :: j in ids && j < i && Overlap(faces[i], faces[j])) ==> Chosen(faces[..i + 1], ids)
  {
    hide Overlap;
    forall n: nat | n < i && n !in ids ensures exists j :: j in ids && j < n && Overlap(faces[n], faces[j]) {
      var j :| j in ids && j < n && Overlap(faces[..i][n], faces[..i][j]);
    }
    assert forall n: nat :: n < i ==> faces[..i][n] == faces[..i + 1][n] == faces[n];
  }

  function Elements(ids: seq<nat>): set<nat> {
    set i | i in ids
  }

  /** Keeps, best score first, every face that overlaps none of those kept before. */
  method NonMaxSuppression(ordered: seq<Face>) returns (kept: seq<Face>, ghost ids: seq<nat>)
    requires Descending(ordered)
    ensures forall k :: 0 <= k < |ids| ==> ids[k] < |ordered|
    ensures forall k, l :: 0 <= k < l < |ids| ==> ids[k] < ids[l]
    ensures kept == At(ordered, ids) && Chosen(ordered, Elements(ids)) && Descending(kept)
  {
    hide Overlap, Chosen, Elements, At, Descending;
    kept, ids := [], [];
    NoFaces(ordered);
    NothingChosen(ordered);
    for i := 0 to |ordered|
      invariant forall k :: 0 <= k < |ids| ==> ids[k] < i
      invariant forall k, l :: 0 <= k < l < |ids| ==> ids[k] < ids[l]
      invariant kept == At(ordered, ids) && Chosen(ordered[..i], Elements(ids))
    {
      var face := ordered[i];
      ChosenMore(ordered, Elements(ids), i);
      if forall k :: 0 <= k < |kept| ==> !Overlap(face, kept[k]) {
        NoneOverlaps(ordered, ids, i);
        OneMoreFace(ordered, ids, i);
        kept := kept + [face];
        ids := ids + [i];
      } else {
        ghost var k :| 0 <= k < |kept| && Overlap(face, kept[k]);
        FaceAt(ordered, ids, k);
      }
    }
    assert ordered[..|ordered|] == ordered;
    InOrder(ordered, ids);
  }

  lemma NoFaces(faces: seq<Face>)
    ensures At(faces, []) == [] && Elements([]) == {}
  {
  }

  lemma OneMoreFace(faces: seq<Face>, ids: seq<nat>, i: nat)
    requires i < |faces| && forall k :: 0 <= k < |ids| ==> ids[k] < |faces|
    ensures At(faces, ids + [i]) == At(faces, ids) + [faces[i]] && Elements(ids + [i]) == Elements(ids) + {i}
  {
  }

  lemma FaceAt(faces: seq<Face>, ids: seq<nat>, k: nat)
    requires k < |ids| && forall k :: 0 <= k < |ids| ==> ids[k] < |faces|
    ensures ids[k] in Elements(ids) && At(faces, ids)[k] == faces[ids[k]]
  {
  }

  /** Faces at rising positions of a sorted list are sorted. */
  lemma InOrder(faces: seq<Face>, ids: seq<nat>)
    requires Descending(faces) && (forall k :: 0 <= k < |ids| ==> ids[k] < |faces|)
    requires forall k, l :: 0 <= k < l < |ids| ==> ids[k] < ids[l]
    ensures Descending(At(faces, ids))
  {
  }

  lemma NoneOverlaps(faces: seq<Face>, ids: seq<nat>, i: nat)
    requires i < |faces| && forall k :: 0 <= k < |ids| ==> ids[k] < i
    requires forall k :: 0 <= k < |ids| ==> !Overlap(faces[i], At(faces, ids)[k])
    ensures forall j :: j in Elements(ids) ==> j < i && !Overlap(faces[i], faces[j])
  {
    hide Overlap;
    forall j | j in Elements(ids) ensures j < i && !Overlap(faces[i], faces[j]) {
      var k :| 0 <= k < |ids| && ids[k] == j;
      assert At(faces, ids)[k] == faces[j];
    }
  }

  lemma NothingChosen(faces: seq<Face>)
    ensures Chosen(faces[..0], Elements([]))
  {
  }

  /** No two kept faces overlap, in whichever order they are compared. */
  lemma KeptLieApart(faces: seq<Face>, ids: set<nat>, i: nat, j: nat)
    requires Chosen(faces, ids) && i in ids && j in ids && i != j
    ensures !Overlap(faces[i], faces[j])
  {
    OverlapIsSymmetric(faces[i], faces[j]);
  }

  /** A face that is left out is overlapped by a kept one with at least its score. */
  lemma LeftOutForBetter(ordered: seq<Face>, ids: set<nat>, i: nat)
    requires Descending(ordered) && Chosen(ordered, ids) && i < |ordered| && i !in ids
    ensures exists j :: j in ids && j < |ordered| && Overlap(ordered[i], ordered[j]) && ordered[j].score >= ordered[i].score
  {
  }
}
