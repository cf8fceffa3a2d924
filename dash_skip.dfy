/**
 * Whether the first placeholder ("-") entry stands for the reserved
 * stack-pointer slot and must be dropped from the vector table. The scan
 * records the index of the first placeholder and of the first real entry;
 * the first placeholder is dropped only when skip mode is on and it comes
 * before every real entry.
 */
module DashSkip {
  import opened Common
  import opened Sanitizer

  /** A placeholder entry: "-" once surrounding whitespace is removed. */
  predicate IsDash(name: string) {
    var s := Strip(name);
    |s| == 1 && s[0] == '-'
  }

  /** The bare marker "-" is a placeholder. */
  lemma DashMarkIsPlaceholder()
    ensures IsDash("-")
  {
    StripFixesTrimmed("-");
  }

  /** The index of the first placeholder, found the way the scan finds it:
      walking forward and recording an index only while none is recorded. */
  function FirstDash(names: seq<string>): (first: Option<nat>)
    ensures first.None? <==> forall j :: 0 <= j < |names| ==> !IsDash(names[j])
    ensures first.Some? ==>
      first.value < |names| && IsDash(names[first.value]) &&
      forall j :: 0 <= j < first.value ==> !IsDash(names[j])
  {
    if names == [] then None
    else
      var prefix := names[..|names| - 1];
      assert forall j :: 0 <= j < |prefix| ==> prefix[j] == names[j];
      var earlier := FirstDash(prefix);
      if earlier.None? && IsDash(names[|names| - 1]) then Some(|names| - 1) else earlier
  }

  /** The index of the first real (non-placeholder) entry, found the same way. */
  function FirstReal(names: seq<string>): (first: Option<nat>)
    ensures first.None? <==> forall j :: 0 <= j < |names| ==> IsDash(names[j])
    ensures first.Some? ==>
      first.value < |names| && !IsDash(names[first.value]) &&
      forall j :: 0 <= j < first.value ==> IsDash(names[j])
  {
    if names == [] then None
    else
      var prefix := names[..|names| - 1];
      assert forall j :: 0 <= j < |prefix| ==> prefix[j] == names[j];
      var earlier := FirstReal(prefix);
      if earlier.None? && !IsDash(names[|names| - 1]) then Some(|names| - 1) else earlier
  }

  /** The skip decision: the index of the entry to elide, if any. A
      placeholder is elided only when it leads the list, and then it is the
      entry at index 0; so at most one entry is ever elided. */
  function Decide(names: seq<string>, mode: bool): (skip: Option<nat>)
    ensures skip.Some? <==> mode && names != [] && IsDash(names[0])
    ensures skip.Some? ==> skip.value == 0 && skip == FirstDash(names)
  {
    var dash := FirstDash(names);
    var firstReal := FirstReal(names);
    if mode && dash.Some? && (firstReal.None? || dash.value < firstReal.value) then dash else None
  }

  /** The scan of the code generator: one pass recording both indices, when
      skip mode is on; with skip mode off nothing is recorded. */
  method ResolveSkip(names: seq<string>, mode: bool) returns (skip: bool, firstDash: Option<nat>)
    ensures skip <==> Decide(names, mode).Some?
    ensures skip ==> firstDash == Decide(names, mode)
    ensures firstDash == if mode then FirstDash(names) else None
  {
    firstDash := None;
    var firstReal: Option<nat> := None;
    if mode {
      var i := 0;
      while i < |names|
        invariant 0 <= i <= |names|
        invariant firstDash == FirstDash(names[..i])
        invariant firstReal == FirstReal(names[..i])
      {
        assert names[..i + 1][..i] == names[..i];
        if IsDash(names[i]) && firstDash.None? {
          firstDash := Some(i);
        } else if !IsDash(names[i]) && firstReal.None? {
          firstReal := Some(i);
        }
        i := i + 1;
      }
      assert names[..i] == names;
      skip := firstDash.Some? && (firstReal.None? || firstDash.value < firstReal.value);
    } else {
      skip := false;
    }
  }
}
