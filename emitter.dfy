/**
 * Building the generated C source (`generate_c_file`). The output is the
 * sequence of its lines; in the file every line is followed by a newline.
 * It holds a header comment, one weak-alias declaration per real entry,
 * and the `vectors` array whose initializer starts with the stack pointer
 * and has one element per entry that is not elided.
 */
module Emitter {
  import opened Common
  import opened Sanitizer
  import opened DashSkip

  const HeaderComment := "// Auto-generated vector table stubs"
  const VectorsOpen := "uint32_t vectors[] __attribute__((section(\".isr_vector\"))) = {"
  const VectorsClose := "};"

  /** The weak-alias declaration of one handler. */
  function AliasLine(id: string): string {
    "void " + id + "_Handler(void) __attribute__((weak, alias(\"Default_Handler\")));"
  }

  /** One element of the vector table: the stack pointer, an unused vector,
      or the address of a handler. */
  datatype Slot = Reserved | Placeholder | Handler(id: string)

  /** The initializer line of one element. */
  function Render(slot: Slot): string {
    match slot
    case Reserved => "STACK_START,"
    case Placeholder => "0,"
    case Handler(id) => "(uint32_t)&" + id + "_Handler,"
  }

  function RenderAll(slots: seq<Slot>): seq<string> {
    seq(|slots|, k requires 0 <= k < |slots| => Render(slots[k]))
  }

  /** The element an entry stands for when it is kept. */
  function SlotOf(name: string): Slot {
    if IsDash(name) then Placeholder else Handler(Sanitize(name))
  }

  function SlotsOf(names: seq<string>): seq<Slot> {
    seq(|names|, k requires 0 <= k < |names| => SlotOf(names[k]))
  }

  /** The identifiers of the real entries, in order, repeats included. */
  function Ids(names: seq<string>): seq<string> {
    if names == [] then []
    else
      var last := names[|names| - 1];
      Ids(names[..|names| - 1]) + (if IsDash(last) then [] else [Sanitize(last)])
  }

  /** The alias declarations, as the first loop writes them. */
  function AliasLines(names: seq<string>): seq<string> {
    if names == [] then []
    else
      var last := names[|names| - 1];
      AliasLines(names[..|names| - 1]) + (if IsDash(last) then [] else [AliasLine(Sanitize(last))])
  }

  /** The table elements after the stack pointer, as the last loop writes
      them: the placeholder at index `skip`, if any, is left out. */
  function Slots(names: seq<string>, skip: Option<nat>): seq<Slot> {
    if names == [] then []
    else
      var i := |names| - 1;
      Slots(names[..i], skip) + (if IsDash(names[i]) && skip == Some(i) then [] else [SlotOf(names[i])])
  }

  /** The whole table: the stack pointer first. */
  function Initializer(names: seq<string>, skip: Option<nat>): seq<Slot> {
    [Reserved] + Slots(names, skip)
  }

  /** The identifiers of the handler elements of a table, in order. */
  function HandlerIds(slots: seq<Slot>): seq<string> {
    if slots == [] then []
    else
      var last := slots[|slots| - 1];
      HandlerIds(slots[..|slots| - 1]) + (if last.Handler? then [last.id] else [])
  }

  /** Whether `skip` designates a placeholder of `names`, i.e. whether an
      entry is dropped at all. */
  predicate Elides(names: seq<string>, skip: Option<nat>) {
    skip.Some? && skip.value < |names| && IsDash(names[skip.value])
  }

  /** The entries that keep their place in the table, in input order. */
  function Retained(names: seq<string>, skip: Option<nat>): seq<string> {
    if Elides(names, skip) then names[..skip.value] + names[skip.value + 1..] else names
  }

  /** The text of the generated file, line by line. */
  function EmittedLines(names: seq<string>, mode: bool): seq<string> {
    [HeaderComment, ""] + AliasLines(names) + ["", VectorsOpen]
      + RenderAll(Initializer(names, Decide(names, mode))) + [VectorsClose, ""]
  }

  lemma RenderAllAppend(a: seq<Slot>, b: seq<Slot>)
    ensures RenderAll(a + b) == RenderAll(a) + RenderAll(b)
  {
    assert forall k :: 0 <= k < |a| + |b| ==> RenderAll(a + b)[k] == (RenderAll(a) + RenderAll(b))[k];
  }

  /** The first loop: one alias declaration per real entry, and the count
      of real entries. */
  method EmitAliases(names: seq<string>) returns (lines: seq<string>, vectorsParsed: nat)
    ensures lines == AliasLines(names)
    ensures vectorsParsed == |Ids(names)|
  {
    lines := [];
    vectorsParsed := 0;
    for i := 0 to |names|
      invariant lines == AliasLines(names[..i])
      invariant vectorsParsed == |Ids(names[..i])|
    {
      assert names[..i + 1][..i] == names[..i];
      if !IsDash(names[i]) {
        var funcName := Sanitize(names[i]);
        lines := lines + [AliasLine(funcName)];
        vectorsParsed := vectorsParsed + 1;
      }
    }
    assert names[..|names|] == names;
  }

  /** The last loop: one element per entry, except the placeholder at
      `firstDash` when `skip` is set, which is passed over exactly once. */
  method EmitSlots(names: seq<string>, skip: bool, firstDash: Option<nat>) returns (lines: seq<string>)
    ensures lines == RenderAll(Slots(names, if skip then firstDash else None))
  {
    ghost var skipAt := if skip then firstDash else None;
    lines := [];
    var dashSkipped := false;
    for i := 0 to |names|
      invariant lines == RenderAll(Slots(names[..i], skipAt))
      invariant dashSkipped ==> skip && firstDash.Some? && firstDash.value < i
    {
      assert names[..i + 1][..i] == names[..i];
      ghost var tail := if IsDash(names[i]) && skipAt == Some(i) then [] else [SlotOf(names[i])];
      assert Slots(names[..i + 1], skipAt) == Slots(names[..i], skipAt) + tail;
      RenderAllAppend(Slots(names[..i], skipAt), tail);
      if IsDash(names[i]) {
        if skip && !dashSkipped && firstDash == Some(i) {
          dashSkipped := true;
        } else {
          lines := lines + ["0,"];
        }
      } else {
        var funcName := Sanitize(names[i]);
        lines := lines + ["(uint32_t)&" + funcName + "_Handler,"];
      }
    }
    assert names[..|names|] == names;
  }

  /** `generate_c_file`: the header, the alias declarations, the opening of
      the array with the stack pointer, the skip decision, the elements and
      the closing brace, in the order they are written; `vectorsParsed` is
      the count reported at the end. */
  method GenerateCFile(names: seq<string>, mode: bool) returns (lines: seq<string>, vectorsParsed: nat)
    ensures lines == EmittedLines(names, mode)
    ensures vectorsParsed == |Ids(names)|
  {
    lines := [HeaderComment, ""];
    var aliases;
    aliases, vectorsParsed := EmitAliases(names);
    lines := lines + aliases;
    lines := lines + [""];
    lines := lines + [VectorsOpen];
    lines := lines + ["STACK_START,"];
    var skip, firstDash := ResolveSkip(names, mode);
    var elements := EmitSlots(names, skip, firstDash);
    lines := lines + elements;
    lines := lines + [VectorsClose, ""];
    ghost var skipAt := if skip then firstDash else None;
    assert skipAt == Decide(names, mode);
    AssembleLines(names, mode, skipAt, aliases, elements);
  }

  lemma AssembleLines(names: seq<string>, mode: bool, skipAt: Option<nat>, aliases: seq<string>, elements: seq<string>)
    requires skipAt == Decide(names, mode)
    requires aliases == AliasLines(names)
    requires elements == RenderAll(Slots(names, skipAt))
    ensures EmittedLines(names, mode)
         == [HeaderComment, ""] + aliases + [""] + [VectorsOpen] + ["STACK_START,"] + elements + [VectorsClose, ""]
  {
    RenderAllAppend([Reserved], Slots(names, skipAt));
  }

  // Properties of the generated text

  /** The alias declarations are exactly one per identifier of a real
      entry: the k-th declaration names the k-th identifier. */
  lemma {:induction false} AliasLinesFollowIds(names: seq<string>)
    ensures |AliasLines(names)| == |Ids(names)|
    ensures forall k :: 0 <= k < |Ids(names)| ==> AliasLines(names)[k] == AliasLine(Ids(names)[k])
  {
    if names != [] {
      AliasLinesFollowIds(names[..|names| - 1]);
    }
  }

  /** Identifiers are collected entry by entry: the identifiers of a
      concatenation are those of each part, in order, with no repeats
      removed. */
  lemma {:induction false} IdsAppend(a: seq<string>, b: seq<string>)
    ensures Ids(a + b) == Ids(a) + Ids(b)
    decreases |b|
  {
    if b == [] {
      assert a + b == a;
    } else {
      var init := b[..|b| - 1];
      assert (a + b)[..|a + b| - 1] == a + init;
      IdsAppend(a, init);
    }
  }

  /** The positions of the real entries. */
  function RealPositions(names: seq<string>): set<nat> {
    set k: nat | k < |names| && !IsDash(names[k])
  }

  lemma RealPositionsGrow(names: seq<string>)
    requires names != []
    ensures var i := |names| - 1;
      RealPositions(names) == RealPositions(names[..i]) + (if IsDash(names[i]) then {} else {i})
  {
    var i := |names| - 1;
    assert forall k :: 0 <= k < i ==> names[..i][k] == names[k];
  }

  /** The number of alias declarations, which is also the reported count,
      is the number of positions holding a real entry. */
  lemma {:induction false} IdsCountRealEntries(names: seq<string>)
    ensures |Ids(names)| == |RealPositions(names)|
  {
    if names != [] {
      var i := |names| - 1;
      IdsCountRealEntries(names[..i]);
      RealPositionsGrow(names);
      assert i !in RealPositions(names[..i]);
    }
  }

  /** The handler references of the table name the same identifiers, in the
      same order, as the alias declarations, whatever is elided. */
  lemma {:induction false} HandlerIdsMatchAliases(names: seq<string>, skip: Option<nat>)
    ensures HandlerIds(Slots(names, skip)) == Ids(names)
  {
    if names != [] {
      var i := |names| - 1;
      var before := Slots(names[..i], skip);
      HandlerIdsMatchAliases(names[..i], skip);
      if !(IsDash(names[i]) && skip == Some(i)) {
        var all := before + [SlotOf(names[i])];
        assert all[..|all| - 1] == before;
      } else {
        assert before + [] == before;
      }
    }
  }

  lemma SlotsOfAppend(a: seq<string>, b: seq<string>)
    ensures SlotsOf(a + b) == SlotsOf(a) + SlotsOf(b)
  {
    var left, right := SlotsOf(a + b), SlotsOf(a) + SlotsOf(b);
    forall k | 0 <= k < |a| + |b|
      ensures left[k] == right[k]
    {
      if k < |a| {
        assert (a + b)[k] == a[k];
      } else {
        assert (a + b)[k] == b[k - |a|];
      }
    }
  }

  /** The table keeps the input order: its elements after the stack pointer
      are the retained entries, each a placeholder or its handler. */
  lemma {:induction false} SlotsFollowRetained(names: seq<string>, skip: Option<nat>)
    ensures Slots(names, skip) == SlotsOf(Retained(names, skip))
    ensures |Slots(names, skip)| == |names| - (if Elides(names, skip) then 1 else 0)
  {
    if names != [] {
      var i := |names| - 1;
      var prefix := names[..i];
      var last := names[i];
      SlotsFollowRetained(prefix, skip);
      if IsDash(last) && skip == Some(i) {
        assert Retained(names, skip) == prefix by {
          assert !Elides(prefix, skip);
        }
        assert Slots(names, skip) == Slots(prefix, skip) + [];
      } else {
        assert Slots(names, skip) == Slots(prefix, skip) + [SlotOf(last)];
        assert Retained(names, skip) == Retained(prefix, skip) + [last] by {
          RetainedGrows(names, skip);
        }
        SlotsOfAppend(Retained(prefix, skip), [last]);
      }
    }
  }

  /** Appending an entry that is not the elided one appends it to the
      retained entries. */
  lemma RetainedGrows(names: seq<string>, skip: Option<nat>)
    requires names != []
    requires !(IsDash(names[|names| - 1]) && skip == Some(|names| - 1))
    ensures Retained(names, skip) == Retained(names[..|names| - 1], skip) + [names[|names| - 1]]
  {
    var i := |names| - 1;
    var prefix := names[..i];
    var last := names[i];
    if Elides(prefix, skip) {
      var j := skip.value;
      assert names[..j] == prefix[..j];
      assert names[j + 1..] == prefix[j + 1..] + [last];
    } else {
      assert names == prefix + [last];
    }
  }

  /** The initializer always starts with the stack pointer and holds one
      element per entry, less the elided leading placeholder; the rest
      follows the input order, every placeholder giving a 0 element. */
  lemma InitializerShape(names: seq<string>, mode: bool)
    ensures var skip := Decide(names, mode);
      var table := Initializer(names, skip);
      && table[0] == Reserved
      && |table| == 1 + |names| - (if skip.Some? then 1 else 0)
      && table[1..] == SlotsOf(if skip.Some? then names[1..] else names)
  {
    var skip := Decide(names, mode);
    SlotsFollowRetained(names, skip);
    if skip.Some? {
      assert names[..0] + names[1..] == names[1..];
    }
    assert Initializer(names, skip)[1..] == Slots(names, skip);
  }

  /** The skip flag changes the output exactly when the first entry is a
      placeholder; in particular it changes nothing when there is no
      placeholder at all. */
  lemma SkipModeMatters(names: seq<string>)
    ensures EmittedLines(names, true) == EmittedLines(names, false) <==> !(names != [] && IsDash(names[0]))
  {
    if names != [] && IsDash(names[0]) {
      InitializerShape(names, true);
      InitializerShape(names, false);
      assert |EmittedLines(names, true)| != |EmittedLines(names, false)|;
    }
  }

  /** Two real entries, each after an unused vector, give a placeholder
      and a handler element each, in input order. */
  lemma PairedSlots(names: seq<string>, dash: string, first: string, second: string)
    requires IsDash(dash) && !IsDash(first) && !IsDash(second)
    requires names == [dash, first, dash, second]
    ensures SlotsOf(names) == [Placeholder, Handler(Sanitize(first)), Placeholder, Handler(Sanitize(second))]
  {
    var slots := SlotsOf(names);
    assert slots[0] == Placeholder && slots[2] == Placeholder;
    assert slots[1] == Handler(Sanitize(first)) && slots[3] == Handler(Sanitize(second));
  }

  /** A table with a leading and an inner unused vector, as datasheets list
      them (`DatasheetExample` instantiates it), with skip mode on: the leading placeholder is
      taken for the stack-pointer slot and the table has four elements after
      it. */
  lemma LeadingPlaceholderSkipped(names: seq<string>, dash: string, first: string, second: string)
    requires IsDash(dash) && !IsDash(first) && !IsDash(second)
    requires names == [dash, dash, first, dash, second]
    ensures Initializer(names, Decide(names, true))
         == [Reserved, Placeholder, Handler(Sanitize(first)), Placeholder, Handler(Sanitize(second))]
  {
    PairedSlots(names[1..], dash, first, second);
    InitializerShape(names, true);
  }

  /** The same table with skip mode off: the leading placeholder stays as a
      0 element and the table has five elements after the stack pointer. */
  lemma LeadingPlaceholderKept(names: seq<string>, dash: string, first: string, second: string)
    requires IsDash(dash) && !IsDash(first) && !IsDash(second)
    requires names == [dash, dash, first, dash, second]
    ensures Initializer(names, Decide(names, false))
         == [Reserved, Placeholder, Placeholder, Handler(Sanitize(first)), Placeholder, Handler(Sanitize(second))]
  {
    PairedSlots(names[1..], dash, first, second);
    SlotsOfAppend([dash], names[1..]);
    assert [dash] + names[1..] == names;
    InitializerShape(names, false);
  }

  /** The datasheet listing "-", "-", "USART1", "-", "EXTI0" with skip mode
      on: the leading "-" becomes the stack-pointer slot. */
  lemma DatasheetExample()
    ensures Initializer(["-", "-", "USART1", "-", "EXTI0"], Decide(["-", "-", "USART1", "-", "EXTI0"], true))
         == [Reserved, Placeholder, Handler(Sanitize("USART1")), Placeholder, Handler(Sanitize("EXTI0"))]
  {
    DashMarkIsPlaceholder();
    assert !IsDash("USART1") by {
      StripWordChars("USART1");
    }
    assert !IsDash("EXTI0") by {
      StripWordChars("EXTI0");
    }
    LeadingPlaceholderSkipped(["-", "-", "USART1", "-", "EXTI0"], "-", "USART1", "EXTI0");
  }
}
