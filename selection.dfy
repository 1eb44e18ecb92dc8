/** Order-preserving selection: the elements of a sequence that satisfy a
    predicate, and the positions at which they occur. Both are built from the
    front, one element at a time, the way a loop that appends builds them. */
module Selection {

  /** The positions in `r` strictly increase. */
  predicate Increasing(r: seq<nat>) {
    forall a, b :: 0 <= a < b < |r| ==> r[a] < r[b]
  }

  /** The elements of `s` that satisfy `p`, in the order in which they occur. */
  function Select<T>(s: seq<T>, p: T -> bool): (r: seq<T>)
    ensures |r| <= |s|
    ensures forall k :: 0 <= k < |r| ==> p(r[k])
  {
    if s == [] then []
    else Select(s[..|s| - 1], p) + (if p(s[|s| - 1]) then [s[|s| - 1]] else [])
  }

  /** The positions of the elements of `s` that satisfy `p`, in increasing order. */
  function Positions<T>(s: seq<T>, p: T -> bool): (r: seq<nat>)
    ensures Increasing(r)
    ensures forall k :: 0 <= k < |r| ==> r[k] < |s| && p(s[r[k]])
  {
    if s == [] then []
    else Positions(s[..|s| - 1], p) + (if p(s[|s| - 1]) then [|s| - 1] else [])
  }

  /** Every position whose element satisfies `p` is listed. */
  lemma {:induction false} PositionsComplete<T>(s: seq<T>, p: T -> bool, j: nat)
    requires j < |s| && p(s[j])
    ensures j in Positions(s, p)
  {
    if j < |s| - 1 {
      PositionsComplete(s[..|s| - 1], p, j);
    }
  }

  /** The selected elements are exactly the elements at the listed positions. */
  lemma {:induction false} SelectAtPositions<T>(s: seq<T>, p: T -> bool)
    ensures |Select(s, p)| == |Positions(s, p)|
    ensures forall k :: 0 <= k < |Select(s, p)| ==> Select(s, p)[k] == s[Positions(s, p)[k]]
  {
    if s != [] {
      SelectAtPositions(s[..|s| - 1], p);
    }
  }

  /** `Select` keeps exactly the elements of `s` that satisfy `p`, in their
      original order, and nothing else: it is `s` read at a strictly
      increasing sequence of positions which are all the positions whose
      element satisfies `p`. */
  lemma SelectExact<T>(s: seq<T>, p: T -> bool)
    ensures exists idx: seq<nat> ::
      && Increasing(idx)
      && |idx| == |Select(s, p)|
      && (forall k :: 0 <= k < |idx| ==> idx[k] < |s| && Select(s, p)[k] == s[idx[k]])
      && (forall j :: 0 <= j < |s| && p(s[j]) ==> j in idx)
  {
    var idx := Positions(s, p);
    SelectAtPositions(s, p);
    forall j | 0 <= j < |s| && p(s[j]) ensures j in idx {
      PositionsComplete(s, p, j);
    }
  }

  /** Nothing is selected exactly when no element satisfies `p`. */
  lemma PositionsEmptyIff<T>(s: seq<T>, p: T -> bool)
    ensures Positions(s, p) == [] <==> forall j :: 0 <= j < |s| ==> !p(s[j])
  {
    if exists j :: 0 <= j < |s| && p(s[j]) {
      var j :| 0 <= j < |s| && p(s[j]);
      PositionsComplete(s, p, j);
    }
  }

  /** When exactly one element satisfies `p`, its position is the only one listed. */
  lemma {:induction false} PositionsSingleton<T>(s: seq<T>, p: T -> bool, k: nat)
    requires k < |s| && p(s[k])
    requires forall j :: 0 <= j < |s| && j != k ==> !p(s[j])
    ensures Positions(s, p) == [k]
  {
    var init := s[..|s| - 1];
    if k == |s| - 1 {
      PositionsEmptyIff(init, p);
    } else {
      PositionsSingleton(init, p, k);
    }
  }
}
