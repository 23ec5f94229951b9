/**
 * The JavaScript array built-ins that the state container relies on:
 * `slice(start, end)`, `splice(start, 1)`, `findIndex(predicate)` and `map` with a callback that may throw.
 * Arrays are sequences; `splice` is given as the array it leaves behind.
 */
module JsArrays {
  import opened Wrappers

  /** How `slice` and `splice` read a relative index: negative counts back from the end, then clamped to `[0, len]`. */
  function RelativeIndex(k: int, len: nat): (r: nat)
    ensures r <= len
    ensures 0 <= k <= len ==> r == k
    ensures k < 0 ==> r == if len + k < 0 then 0 else len + k
    ensures k > len ==> r == len
  {
    if k < 0 then (if len + k < 0 then 0 else len + k)
    else if k < len then k else len
  }

  /** `s.slice(start, end)`: for non-negative bounds, the window `[start, end)` cut down to the array. */
  function Slice<T>(s: seq<T>, start: int, end: int): (r: seq<T>)
    ensures |r| <= |s|
    ensures 0 <= start <= end ==> r == s[Min(start, |s|)..Min(end, |s|)]
  {
    var from, to := RelativeIndex(start, |s|), RelativeIndex(end, |s|);
    if from < to then s[from..to] else []
  }

  function Min(a: int, b: int): int {
    if a <= b then a else b
  }

  /**
   * What `s.splice(start, 1)` leaves in `s`: an index inside the array loses that element,
   * `-1` loses the last element (nothing when the array is empty), an index past the end changes nothing.
   */
  function SpliceOne<T>(s: seq<T>, start: int): (r: seq<T>)
    ensures 0 <= start < |s| ==> r == s[..start] + s[start + 1..]
    ensures start == -1 ==> r == if s == [] then [] else s[..|s| - 1]
    ensures start >= |s| ==> r == s
  {
    var from := RelativeIndex(start, |s|);
    if from < |s| then s[..from] + s[from + 1..] else s
  }

  /** `s.findIndex(p)`: the first index whose element satisfies `p`, or `-1` when there is none. */
  function FindIndex<T>(s: seq<T>, p: T -> bool): (r: int)
    ensures -1 <= r < |s|
    ensures r == -1 <==> forall i :: 0 <= i < |s| ==> !p(s[i])
    ensures r >= 0 ==> p(s[r]) && forall i :: 0 <= i < r ==> !p(s[i])
  {
    if s == [] then -1
    else if p(s[0]) then 0
    else
      var k := FindIndex(s[1..], p);
      assert forall i :: 1 <= i < |s| ==> s[i] == s[1..][i - 1];
      if k < 0 then -1 else k + 1
  }

  /**
   * `s.map(f)` where `f` may throw: the mapped elements when every call returns, and otherwise
   * the error of the first element whose call throws.
   */
  function MapOrThrow<A, B>(s: seq<A>, f: A -> Result<B>): (r: Result<seq<B>>)
    ensures r.Ok? <==> forall i :: 0 <= i < |s| ==> f(s[i]).Ok?
    ensures r.Ok? ==> |r.value| == |s| && forall i :: 0 <= i < |s| ==> f(s[i]) == Ok(r.value[i])
    ensures r.Err? ==> exists i :: 0 <= i < |s| && f(s[i]) == Err(r.message) && forall j :: 0 <= j < i ==> f(s[j]).Ok?
  {
    if s == [] then Ok([])
    else
      assert forall i :: 1 <= i < |s| ==> s[i] == s[1..][i - 1];
      match f(s[0])
      case Err(m) => Err(m)
      case Ok(first) =>
        match MapOrThrow(s[1..], f)
        case Err(m) =>
          assert exists i :: 1 <= i < |s| && f(s[i]) == Err(m) && forall j :: 0 <= j < i ==> f(s[j]).Ok?;
          Err(m)
        case Ok(rest) => Ok([first] + rest)
  }
}
