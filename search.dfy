/** Left-to-right search over a sequence, the shape shared by `Array.prototype.find`,
    `Array.prototype.some` and a fail-fast chain of rules. */
module Search {
  import opened Wrappers

  /** The index of the first element of `s` satisfying `p`, or `None` when there is none. */
  function FirstIndex<T>(s: seq<T>, p: T -> bool): (r: Option<nat>)
    ensures r.Some? ==> r.value < |s| && p(s[r.value])
    ensures r.Some? ==> forall j :: 0 <= j < r.value ==> !p(s[j])
    ensures r.None? <==> forall j :: 0 <= j < |s| ==> !p(s[j])
  {
    if |s| == 0 then None
    else if p(s[0]) then Some(0)
    else match FirstIndex(s[1..], p)
      case None => None
      case Some(i) => Some(i + 1)
  }

  /** Searching `a + b` finds the first hit in `a`, or else the first hit in `b`, shifted past `a`. */
  lemma {:induction false} FirstIndexConcat<T>(a: seq<T>, b: seq<T>, p: T -> bool)
    ensures FirstIndex(a + b, p) ==
      match FirstIndex(a, p)
      case Some(i) => Some(i)
      case None =>
        match FirstIndex(b, p)
        case None => None
        case Some(j) => Some(|a| + j)
  {
    var s := a + b;
    assert forall j :: 0 <= j < |a| ==> s[j] == a[j];
    assert forall j :: 0 <= j < |b| ==> s[|a| + j] == b[j];
    match FirstIndex(a, p)
    case Some(i) =>
      assert p(s[i]);
    case None =>
      match FirstIndex(b, p)
      case None =>
        forall j | 0 <= j < |s| ensures !p(s[j]) {
          if j >= |a| { assert s[j] == b[j - |a|]; }
        }
      case Some(k) =>
        assert p(s[|a| + k]);
        forall j | 0 <= j < |a| + k ensures !p(s[j]) {
          if j >= |a| { assert s[j] == b[j - |a|]; }
        }
  }

  /** A search over `s + [x]` finds the same first index as over `s`, or else looks at `x`. */
  lemma {:induction false} FirstIndexAppend<T>(s: seq<T>, x: T, p: T -> bool)
    ensures FirstIndex(s + [x], p) ==
      match FirstIndex(s, p)
      case Some(i) => Some(i)
      case None => if p(x) then Some(|s|) else None
  {
    FirstIndexConcat(s, [x], p);
    assert [x][0] == x;
  }
}
