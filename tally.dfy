/** Counting the one-shot flags that the proxies set. */
module Tally {

  /** How many of the flags in `s` are set. */
  function CountTrue(s: seq<bool>): (n: nat)
    ensures n <= |s|
  {
    if s == [] then 0 else CountTrue(s[..|s| - 1]) + (if s[|s| - 1] then 1 else 0)
  }

  /** The count reaches the length exactly when every flag is set, and is zero exactly when none is. */
  lemma {:induction false} CountTrueExtremes(s: seq<bool>)
    ensures CountTrue(s) == |s| <==> forall i :: 0 <= i < |s| ==> s[i]
    ensures CountTrue(s) == 0 <==> forall i :: 0 <= i < |s| ==> !s[i]
  {
    if s != [] {
      var init := s[..|s| - 1];
      CountTrueExtremes(init);
      assert forall i :: 0 <= i < |init| ==> init[i] == s[i];
    }
  }

  /** Setting a flag that was clear raises the count by exactly one. */
  lemma {:induction false} CountTrueSet(s: seq<bool>, i: nat)
    requires i < |s| && !s[i]
    ensures CountTrue(s[i := true]) == CountTrue(s) + 1
  {
    var last := |s| - 1;
    if i == last {
      assert s[i := true][..last] == s[..last];
    } else {
      assert s[i := true][..last] == s[..last][i := true];
      CountTrueSet(s[..last], i);
    }
  }

  /** A fresh, clear flag does not change the count. */
  lemma CountTrueAppendFalse(s: seq<bool>, extended: seq<bool>)
    requires extended == s + [false]
    ensures CountTrue(extended) == CountTrue(s)
  {
    assert extended[..|s|] == s;
  }
}
