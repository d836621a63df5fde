/** Small shared vocabulary: an optional value (Python's `None` or a
    missing dictionary key) and the "first minimum" rule of Python's `min`. */
module Common {

  /** A value that may be absent, with `GetOr` playing the role of
      Python's `dict.get(key, default)`. */
  datatype Option<T> = None | Some(value: T) {
    function GetOr(default: T): T {
      if Some? then value else default
    }
  }

  /** The index Python's `min(items, key=...)` returns: the items are scanned
      left to right and the running candidate is replaced only by a strictly
      smaller key, so among equal minima the first one wins. */
  function FirstArgMin(s: seq<real>): (i: nat)
    requires |s| > 0
    ensures i < |s|
    ensures forall j :: 0 <= j < |s| ==> s[i] <= s[j]
    ensures forall j :: 0 <= j < i ==> s[i] < s[j]
  {
    if |s| == 1 then 0
    else
      var b := FirstArgMin(s[..|s| - 1]);
      if s[|s| - 1] < s[b] then |s| - 1 else b
  }

  /** The two properties of `FirstArgMin` determine it: an index that is
      minimal and strictly below every earlier key is the one `min` picks. */
  lemma FirstArgMinUnique(s: seq<real>, i: nat)
    requires i < |s|
    requires forall j :: 0 <= j < |s| ==> s[i] <= s[j]
    requires forall j :: 0 <= j < i ==> s[i] < s[j]
    ensures FirstArgMin(s) == i
  {
  }

  /** Applies `f` to every element, keeping the order. */
  function MapSeq<A, B>(f: A -> B, s: seq<A>): (r: seq<B>)
    ensures |r| == |s|
    ensures forall i :: 0 <= i < |s| ==> r[i] == f(s[i])
  {
    seq(|s|, i requires 0 <= i < |s| => f(s[i]))
  }
}
