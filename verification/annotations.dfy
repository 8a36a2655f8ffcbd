/**
 * Parsed annotations and `find_blue_rois`, the order-preserving filter-map
 * from annotations to the rectangles of the blue ones.
 */
module Annotations {
  import opened Colour
  import opened Roi

  /** One entry of the annotation list: `{"color": c, "region": {x, y, width, height}}`. */
  datatype Annotation = Annotation(color: int, region: Rect)

  /** `find_blue_rois`: the regions of the blue annotations, in list order. */
  function FindBlueRois(anns: seq<Annotation>): (rois: seq<Rect>)
    ensures |rois| <= |anns|
    ensures forall r :: r in rois <==> exists i :: 0 <= i < |anns| && IsBlue(anns[i].color) && anns[i].region == r
  {
    if anns == [] then []
    else
      var rest := FindBlueRois(anns[1..]);
      assert forall i :: 0 < i < |anns| ==> anns[i] == anns[1..][i - 1];
      if IsBlue(anns[0].color) then [anns[0].region] + rest else rest
  }

  /**
   * `idx` lists the positions of the blue annotations in increasing order,
   * and `rois` holds their regions in that order.
   */
  ghost predicate SelectsBlue(anns: seq<Annotation>, rois: seq<Rect>, idx: seq<nat>) {
    && |idx| == |rois|
    && (forall k :: 0 <= k < |idx| ==> idx[k] < |anns| && rois[k] == anns[idx[k]].region)
    && (forall k, l :: 0 <= k < l < |idx| ==> idx[k] < idx[l])
    && (forall i :: 0 <= i < |anns| ==> (IsBlue(anns[i].color) <==> i in idx))
  }

  /** Indices into the tail of a list, shifted to index the list itself. */
  function Shift(idx: seq<nat>): seq<nat> {
    seq(|idx|, k requires 0 <= k < |idx| => idx[k] + 1)
  }

  /** A selection of the tail, shifted, selects the same entries of the whole list. */
  lemma SelectsBlueShift(anns: seq<Annotation>, rois: seq<Rect>, tailIdx: seq<nat>)
    requires anns != []
    requires SelectsBlue(anns[1..], rois, tailIdx)
    ensures
      var idx := Shift(tailIdx);
      && |idx| == |rois|
      && (forall k :: 0 <= k < |idx| ==> 0 < idx[k] < |anns| && rois[k] == anns[idx[k]].region)
      && (forall k, l :: 0 <= k < l < |idx| ==> idx[k] < idx[l])
      && (forall i :: 0 < i < |anns| ==> (IsBlue(anns[i].color) <==> i in idx))
      && 0 !in idx
  {
    var idx := Shift(tailIdx);
    forall i | 0 < i < |anns|
      ensures IsBlue(anns[i].color) <==> i in idx
    {
      assert anns[i] == anns[1..][i - 1];
      if i in idx {
        var k :| 0 <= k < |idx| && idx[k] == i;
        assert tailIdx[k] == i - 1;
      }
      if i - 1 in tailIdx {
        var k :| 0 <= k < |tailIdx| && tailIdx[k] == i - 1;
        assert idx[k] == i;
      }
    }
    forall k | 0 <= k < |idx|
      ensures 0 < idx[k] < |anns| && rois[k] == anns[idx[k]].region
    {
      assert anns[idx[k]] == anns[1..][tailIdx[k]];
    }
  }

  /** Putting position 0 in front of increasing positive indices keeps them increasing. */
  lemma ConsZeroIncreasing(shifted: seq<nat>)
    requires forall k :: 0 <= k < |shifted| ==> 0 < shifted[k]
    requires forall k, l :: 0 <= k < l < |shifted| ==> shifted[k] < shifted[l]
    ensures forall k, l :: 0 <= k < l < |[0] + shifted| ==> ([0] + shifted)[k] < ([0] + shifted)[l]
  {
    var idx := [0] + shifted;
    forall k, l | 0 <= k < l < |idx|
      ensures idx[k] < idx[l]
    {
      assert idx[l] == shifted[l - 1];
      if 0 < k {
        assert idx[k] == shifted[k - 1];
      }
    }
  }

  /** Putting the head's region and position in front keeps every pair matched. */
  lemma ConsHeadMatches(anns: seq<Annotation>, rest: seq<Rect>, shifted: seq<nat>)
    requires anns != [] && |shifted| == |rest|
    requires forall k :: 0 <= k < |shifted| ==> shifted[k] < |anns| && rest[k] == anns[shifted[k]].region
    ensures forall k :: 0 <= k < |[0] + shifted| ==>
      ([0] + shifted)[k] < |anns| && ([anns[0].region] + rest)[k] == anns[([0] + shifted)[k]].region
  {
    var idx, rois := [0] + shifted, [anns[0].region] + rest;
    forall k | 0 < k < |idx|
      ensures idx[k] < |anns| && rois[k] == anns[idx[k]].region
    {
      assert idx[k] == shifted[k - 1] && rois[k] == rest[k - 1];
    }
  }

  /** Extending a shifted selection of the tail by the head of the list. */
  lemma SelectsBlueCons(anns: seq<Annotation>, rest: seq<Rect>, shifted: seq<nat>)
    requires anns != []
    requires |shifted| == |rest|
    requires forall k :: 0 <= k < |shifted| ==> 0 < shifted[k] < |anns| && rest[k] == anns[shifted[k]].region
    requires forall k, l :: 0 <= k < l < |shifted| ==> shifted[k] < shifted[l]
    requires forall i :: 0 < i < |anns| ==> (IsBlue(anns[i].color) <==> i in shifted)
    requires 0 !in shifted
    ensures IsBlue(anns[0].color) ==> SelectsBlue(anns, [anns[0].region] + rest, [0] + shifted)
    ensures !IsBlue(anns[0].color) ==> SelectsBlue(anns, rest, shifted)
  {
    if IsBlue(anns[0].color) {
      var idx := [0] + shifted;
      ConsHeadMatches(anns, rest, shifted);
      ConsZeroIncreasing(shifted);
      forall i | 0 < i < |anns|
        ensures IsBlue(anns[i].color) <==> i in idx
      {
        assert i in idx <==> i in shifted;
      }
    }
  }

  /** The filter keeps exactly the blue annotations and keeps their order. */
  lemma {:induction false} FindBlueRoisSelects(anns: seq<Annotation>) returns (idx: seq<nat>)
    ensures SelectsBlue(anns, FindBlueRois(anns), idx)
  {
    if anns == [] {
      idx := [];
    } else {
      var rest := FindBlueRois(anns[1..]);
      var tailIdx := FindBlueRoisSelects(anns[1..]);
      SelectsBlueShift(anns, rest, tailIdx);
      var shifted := Shift(tailIdx);
      SelectsBlueCons(anns, rest, shifted);
      if IsBlue(anns[0].color) {
        assert FindBlueRois(anns) == [anns[0].region] + rest;
        idx := [0] + shifted;
      } else {
        assert FindBlueRois(anns) == rest;
        idx := shifted;
      }
    }
  }

  /** No region is returned exactly when no annotation is blue. */
  lemma FindBlueRoisEmpty(anns: seq<Annotation>)
    ensures FindBlueRois(anns) == [] <==> forall i :: 0 <= i < |anns| ==> !IsBlue(anns[i].color)
  {
    if FindBlueRois(anns) == [] {
      forall i | 0 <= i < |anns|
        ensures !IsBlue(anns[i].color)
      {
        assert anns[i].region !in FindBlueRois(anns);
      }
    } else {
      assert FindBlueRois(anns)[0] in FindBlueRois(anns);
    }
  }

  /** Filtering a concatenation filters each part. */
  lemma {:induction false} FindBlueRoisAppend(a: seq<Annotation>, b: seq<Annotation>)
    ensures FindBlueRois(a + b) == FindBlueRois(a) + FindBlueRois(b)
  {
    if a == [] {
      assert a + b == b;
    } else {
      assert (a + b)[1..] == a[1..] + b;
      FindBlueRoisAppend(a[1..], b);
    }
  }
}
