/**
 * The timesheet walker: a depth-first walk of the parser's tree that drives
 * the builders and turns the tree into a `Timesheet`, or stops at the first
 * defect.
 *
 * Each rule is specified by a function (`TimesheetOf`, `DateOf`, `EntryOf`):
 * every child is first mapped to the builder call it causes (or to a defect),
 * and the walk stops at the first defect (`Collect`); otherwise the calls are
 * replayed on a fresh builder. The methods `Walk`, `WalkDate` and `WalkEntry`
 * do what the source does, one child at a time with a mutable builder, and
 * are proved to compute those functions.
 */
module Walker {
  import opened Wrappers
  import opened PhpStrings
  import opened SyntaxTree
  import opened Domain

  const NODE_CATEGORY: string := "#category"
  const NODE_DATE: string := "#date"
  const NODE_ENTRY: string := "#entry"
  const NODE_TAG: string := "#tag"

  const TOKEN_DATE: string := "date"
  const TOKEN_TEXT: string := "text"
  const TOKEN_TIME: string := "time"
  // The walker spells these two out inline rather than as class constants.
  const TOKEN_NAME: string := "name"
  const TOKEN_TAG: string := "tag"

  /** The date parser (`new DateTimeImmutable($text)`), which lies outside the walker.
      It is taken as a pure function of the token text: the clock and the default
      timezone that PHP's constructor also reads are not modelled. A parser is
      expected to reject a bad token with `MalformedDate`. */
  type DateParser = string -> Result<CalendarDate, Defect>

  /** Index `k` holds the first child whose outcome is a defect. */
  predicate FirstDefect<T>(cs: seq<Node>, f: Node -> Result<T, Defect>, k: int) {
    0 <= k < |cs| && f(cs[k]).Failure? && forall j :: 0 <= j < k ==> f(cs[j]).Success?
  }

  /** A `foreach` over `cs` whose body may throw: every child's outcome in order,
      or the defect of the first child that fails. */
  function Collect<T>(cs: seq<Node>, f: Node -> Result<T, Defect>): Result<seq<T>, Defect>
    decreases |cs|
  {
    if cs == [] then Success([])
    else
      var done :- Collect(cs[..|cs| - 1], f);
      var last :- f(cs[|cs| - 1]);
      Success(done + [last])
  }

  /** `Collect` succeeds exactly when every child does, with their values in order;
      otherwise it fails with the defect of the first child that fails. */
  lemma {:induction false} CollectMeaning<T>(cs: seq<Node>, f: Node -> Result<T, Defect>)
    ensures Collect(cs, f).Success? <==> forall k :: 0 <= k < |cs| ==> f(cs[k]).Success?
    ensures Collect(cs, f).Success? ==>
              |Collect(cs, f).value| == |cs| &&
              forall k :: 0 <= k < |cs| ==> f(cs[k]) == Success(Collect(cs, f).value[k])
    ensures Collect(cs, f).Failure? ==>
              exists k :: FirstDefect(cs, f, k) && f(cs[k]) == Failure(Collect(cs, f).error)
    decreases |cs|
  {
    if cs != [] {
      var init := cs[..|cs| - 1];
      CollectMeaning(init, f);
      assert forall k :: 0 <= k < |init| ==> init[k] == cs[k];
      if Collect(init, f).Success? && f(cs[|cs| - 1]).Failure? {
        assert FirstDefect(cs, f, |cs| - 1);
      }
    }
  }

  /** Once child `i` fails and all before it succeed, nothing after it matters. */
  lemma CollectStopsAt<T>(cs: seq<Node>, f: Node -> Result<T, Defect>, i: nat)
    requires i < |cs|
    requires Collect(cs[..i], f).Success?
    requires f(cs[i]).Failure?
    ensures Collect(cs, f) == Failure(f(cs[i]).error)
  {
    CollectMeaning(cs, f);
    CollectMeaning(cs[..i], f);
    assert forall j :: 0 <= j < i ==> cs[..i][j] == cs[j];
    var k :| FirstDefect(cs, f, k) && f(cs[k]) == Failure(Collect(cs, f).error);
    assert k == i;
  }

  /** Extending the children by one successful child extends the outcomes by one. */
  lemma CollectStep<T>(cs: seq<Node>, f: Node -> Result<T, Defect>, i: nat)
    requires i < |cs|
    requires Collect(cs[..i], f).Success?
    requires f(cs[i]).Success?
    ensures Collect(cs[..i + 1], f) == Success(Collect(cs[..i], f).value + [f(cs[i]).value])
  {
    assert cs[..i + 1][..i] == cs[..i];
  }

  // ---------------------------------------------------------------- category and tag

  /** `walkCategory`: the text of the first `name` leaf among the children. */
  function WalkCategory(n: Node): (r: Result<string, Defect>)
    ensures r.Failure? ==> r.error == MissingName("Category has no name")
  {
    match FirstWithToken(n.children, TOKEN_NAME)
    case Some(k) => Success(TokenValue(n.children[k]))
    case None => Failure(MissingName("Category has no name"))
  }

  /** `walkCategory` gives the text of the first `name` leaf, and fails with
      "Category has no name" exactly when no child is a `name` leaf. */
  lemma WalkCategoryMeaning(n: Node)
    ensures WalkCategory(n).Failure? <==> forall k :: 0 <= k < |n.children| ==> !HasToken(n.children[k], TOKEN_NAME)
    ensures WalkCategory(n).Failure? ==> WalkCategory(n).error == MissingName("Category has no name")
    ensures forall k :: IsFirstWithToken(n.children, TOKEN_NAME, k) ==> WalkCategory(n) == Success(TokenValue(n.children[k]))
  {
    forall k | IsFirstWithToken(n.children, TOKEN_NAME, k)
      ensures WalkCategory(n) == Success(TokenValue(n.children[k]))
    {
      FirstIsUnique(n.children, TOKEN_NAME, k);
    }
  }

  /** `walkTag`: the text of the first `tag` leaf with every leading `@` removed. */
  function WalkTag(n: Node): (r: Result<string, Defect>)
    ensures r.Failure? ==> r.error == MissingName("Tag has no name")
  {
    match FirstWithToken(n.children, TOKEN_TAG)
    case Some(k) => Success(LTrim(TokenValue(n.children[k]), {'@'}))
    case None => Failure(MissingName("Tag has no name"))
  }

  /** `walkTag` gives the first `tag` leaf's text with its whole run of leading `@`
      removed, so never a tag starting with `@`, and fails with "Tag has no name"
      exactly when no child is a `tag` leaf. */
  lemma WalkTagMeaning(n: Node)
    ensures WalkTag(n).Failure? <==> forall k :: 0 <= k < |n.children| ==> !HasToken(n.children[k], TOKEN_TAG)
    ensures WalkTag(n).Failure? ==> WalkTag(n).error == MissingName("Tag has no name")
    ensures forall k :: IsFirstWithToken(n.children, TOKEN_TAG, k) ==> WalkTag(n) == Success(LTrim(TokenValue(n.children[k]), {'@'}))
    ensures WalkTag(n).Success? ==> WalkTag(n).value == [] || WalkTag(n).value[0] != '@'
  {
    forall k | IsFirstWithToken(n.children, TOKEN_TAG, k)
      ensures WalkTag(n) == Success(LTrim(TokenValue(n.children[k]), {'@'}))
    {
      FirstIsUnique(n.children, TOKEN_TAG, k);
    }
  }

  // ---------------------------------------------------------------- entry

  /** `[$hour, $minutes] = explode(':', $text)`: the first two pieces; a token
      without a ':' has no minute piece and is a defect here. */
  function SplitTime(text: string): (r: Result<Time, Defect>)
    ensures r.Failure? <==> ':' !in text
    ensures r.Failure? ==> r.error == MalformedTime(text)
    ensures r.Success? ==> ':' !in r.value.hour && ':' !in r.value.minute
  {
    var parts := Explode(text, ':');
    ExplodePieces(text, ':');
    if |parts| < 2 then Failure(MalformedTime(text)) else Success(Time(parts[0], parts[1]))
  }

  /** The builder call one child of an `#entry` node causes. */
  datatype EntryStep =
    | SetsTime(time: Time)
    | SetsComment(comment: string)
    | SetsCategory(category: string)
    | AddsTag(tag: string)
    | Skipped

  /** One pass of the loop in `walkEntry`: time, then text, then category, then tag. */
  function EntryChild(c: Node): Result<EntryStep, Defect> {
    if HasToken(c, TOKEN_TIME) then
      var t :- SplitTime(TokenValue(c));
      Success(SetsTime(t))
    else if HasToken(c, TOKEN_TEXT) then
      Success(SetsComment(Trim(TokenValue(c), Whitespace)))
    else if c.id == NODE_CATEGORY then
      var name :- WalkCategory(c);
      Success(SetsCategory(name))
    else if c.id == NODE_TAG then
      var tag :- WalkTag(c);
      Success(AddsTag(tag))
    else
      Success(Skipped)
  }

  /** The builder call `step` made on an entry under construction. */
  function ApplyEntryStep(e: Entry, step: EntryStep): Entry {
    match step
    case SetsTime(t) => e.(time := Some(t))
    case SetsComment(text) => e.(comment := Some(text))
    case SetsCategory(name) => e.(category := Some(name))
    case AddsTag(tag) => e.(tags := e.tags + [tag])
    case Skipped => e
  }

  /** The entry a fresh `EntryBuilder` builds after the given calls. */
  function EntryBuilt(steps: seq<EntryStep>): Entry
    decreases |steps|
  {
    if steps == [] then Entry(None, None, None, [])
    else ApplyEntryStep(EntryBuilt(steps[..|steps| - 1]), steps[|steps| - 1])
  }

  /** One more successful child of an entry: one more builder call to replay. */
  lemma EntryLoopStep(cs: seq<Node>, i: nat, steps: seq<EntryStep>, step: EntryStep)
    requires i < |cs|
    requires Collect(cs[..i], EntryChild) == Success(steps)
    requires EntryChild(cs[i]) == Success(step)
    ensures Collect(cs[..i + 1], EntryChild) == Success(steps + [step])
    ensures EntryBuilt(steps + [step]) == ApplyEntryStep(EntryBuilt(steps), step)
  {
    CollectStep(cs, EntryChild, i);
    assert (steps + [step])[..|steps|] == steps;
  }

  /** What `walkEntry` returns for an `#entry` node. */
  function EntryOf(n: Node): Result<Entry, Defect> {
    var steps :- Collect(n.children, EntryChild);
    Success(EntryBuilt(steps))
  }

  // ---------------------------------------------------------------- date

  /** The builder call one child of a `#date` node causes. */
  datatype DateStep = SetsDate(date: CalendarDate) | AddsEntry(entry: Entry) | Ignored

  /** One pass of the loop in `walkDate`: a `date` leaf sets the date and is
      never also taken as an entry. */
  function DateChild(c: Node, parse: DateParser): (r: Result<DateStep, Defect>)
    ensures r.Success? && r.value.SetsDate? ==> HasToken(c, TOKEN_DATE)
    ensures r.Success? && r.value.AddsEntry? ==> !HasToken(c, TOKEN_DATE) && c.id == NODE_ENTRY
    ensures r.Failure? ==> HasToken(c, TOKEN_DATE) || c.id == NODE_ENTRY
  {
    if HasToken(c, TOKEN_DATE) then
      var d :- parse(TokenValue(c));
      Success(SetsDate(d))
    else if c.id == NODE_ENTRY then
      var e :- EntryOf(c);
      Success(AddsEntry(e))
    else
      Success(Ignored)
  }

  function DateChildOf(parse: DateParser): Node -> Result<DateStep, Defect> {
    c => DateChild(c, parse)
  }

  /** The builder call `step` made on a date under construction. */
  function ApplyDateStep(d: Date, step: DateStep): Date {
    match step
    case SetsDate(cd) => d.(date := Some(cd))
    case AddsEntry(e) => d.(entries := d.entries + [e])
    case Ignored => d
  }

  /** The date a fresh `DateBuilder` builds after the given calls. */
  function DateBuilt(steps: seq<DateStep>): Date
    decreases |steps|
  {
    if steps == [] then Date(None, [])
    else ApplyDateStep(DateBuilt(steps[..|steps| - 1]), steps[|steps| - 1])
  }

  /** One more successful child of a date: one more builder call to replay. */
  lemma DateLoopStep(cs: seq<Node>, parse: DateParser, i: nat, steps: seq<DateStep>, step: DateStep)
    requires i < |cs|
    requires Collect(cs[..i], DateChildOf(parse)) == Success(steps)
    requires DateChild(cs[i], parse) == Success(step)
    ensures Collect(cs[..i + 1], DateChildOf(parse)) == Success(steps + [step])
    ensures DateBuilt(steps + [step]) == ApplyDateStep(DateBuilt(steps), step)
  {
    CollectStep(cs, DateChildOf(parse), i);
    assert (steps + [step])[..|steps|] == steps;
  }

  /** What `walkDate` returns for a `#date` node. */
  function DateOf(n: Node, parse: DateParser): Result<Date, Defect> {
    var steps :- Collect(n.children, DateChildOf(parse));
    Success(DateBuilt(steps))
  }

  function DateOfFn(parse: DateParser): Node -> Result<Date, Defect> {
    n => DateOf(n, parse)
  }

  // ---------------------------------------------------------------- timesheet

  /** One pass of the loop in `walk`: a `#date` child adds a date, any other child nothing. */
  function RootChild(c: Node, parse: DateParser): (r: Result<Option<Date>, Defect>)
    ensures c.id != NODE_DATE ==> r == Success(None)
    ensures c.id == NODE_DATE ==> r.Failure? == DateOf(c, parse).Failure?
    ensures r.Success? && r.value.Some? ==> DateOf(c, parse) == Success(r.value.value)
    ensures r.Failure? ==> DateOf(c, parse) == Failure(r.error)
  {
    if c.id == NODE_DATE then
      var d :- DateOf(c, parse);
      Success(Some(d))
    else
      Success(None)
  }

  function RootChildOf(parse: DateParser): Node -> Result<Option<Date>, Defect> {
    c => RootChild(c, parse)
  }

  /** The dates a fresh `TimesheetBuilder` holds after the given calls. */
  function DatesAdded(steps: seq<Option<Date>>): seq<Date>
    decreases |steps|
  {
    if steps == [] then []
    else
      DatesAdded(steps[..|steps| - 1]) +
        match steps[|steps| - 1]
        case Some(d) => [d]
        case None => []
  }

  /** One more successful child of the root: at most one more date. */
  lemma RootLoopStep(cs: seq<Node>, parse: DateParser, i: nat, steps: seq<Option<Date>>, step: Option<Date>)
    requires i < |cs|
    requires Collect(cs[..i], RootChildOf(parse)) == Success(steps)
    requires RootChild(cs[i], parse) == Success(step)
    ensures Collect(cs[..i + 1], RootChildOf(parse)) == Success(steps + [step])
    ensures DatesAdded(steps + [step]) == DatesAdded(steps) + (if step.Some? then [step.value] else [])
  {
    CollectStep(cs, RootChildOf(parse), i);
    assert (steps + [step])[..|steps|] == steps;
  }

  /** What `walk` returns for the root of the tree. */
  function TimesheetOf(root: Node, parse: DateParser): Result<Timesheet, Defect> {
    var steps :- Collect(root.children, RootChildOf(parse));
    Success(Timesheet(DatesAdded(steps)))
  }

  // ---------------------------------------------------------------- the walk itself

  /** The body of the loop in `walkEntry` for one child: the first matching branch
      makes its builder call, or throws; a child no branch matches is skipped. */
  method TakeEntryChild(builder: EntryBuilder, child: Node) returns (defect: Option<Defect>)
    modifies builder
    ensures defect.None? <==> EntryChild(child).Success?
    ensures defect.Some? ==> EntryChild(child) == Failure(defect.value)
    ensures defect.None? ==> builder.Build() == ApplyEntryStep(old(builder.Build()), EntryChild(child).value)
    ensures defect.Some? ==> builder.Build() == old(builder.Build())
  {
    if HasToken(child, TOKEN_TIME) {
      defect := TakeTime(builder, child);
    } else if HasToken(child, TOKEN_TEXT) {
      TakeText(builder, child);
      defect := None;
    } else if child.id == NODE_CATEGORY {
      defect := TakeCategory(builder, child);
    } else if child.id == NODE_TAG {
      defect := TakeTag(builder, child);
    } else {
      defect := None;
    }
  }

  /** The `time` branch: `explode` the token and set hour and minute. */
  method TakeTime(builder: EntryBuilder, child: Node) returns (defect: Option<Defect>)
    requires HasToken(child, TOKEN_TIME)
    modifies builder
    ensures defect.None? <==> EntryChild(child).Success?
    ensures defect.Some? ==> EntryChild(child) == Failure(defect.value)
    ensures defect.None? ==> builder.Build() == ApplyEntryStep(old(builder.Build()), EntryChild(child).value)
    ensures defect.Some? ==> builder.Build() == old(builder.Build())
  {
    var time := SplitTime(TokenValue(child));
    if time.Failure? {
      return Some(time.error);
    }
    builder.SetTime(time.value.hour, time.value.minute);
    return None;
  }

  /** The `text` branch: set the trimmed text as the comment. */
  method TakeText(builder: EntryBuilder, child: Node)
    requires !HasToken(child, TOKEN_TIME) && HasToken(child, TOKEN_TEXT)
    modifies builder
    ensures EntryChild(child).Success?
    ensures builder.Build() == ApplyEntryStep(old(builder.Build()), EntryChild(child).value)
  {
    builder.SetComment(Trim(TokenValue(child), Whitespace));
  }

  /** The `#category` branch: set the category's name, or throw. */
  method TakeCategory(builder: EntryBuilder, child: Node) returns (defect: Option<Defect>)
    requires !HasToken(child, TOKEN_TIME) && !HasToken(child, TOKEN_TEXT) && child.id == NODE_CATEGORY
    modifies builder
    ensures defect.None? <==> EntryChild(child).Success?
    ensures defect.Some? ==> EntryChild(child) == Failure(defect.value)
    ensures defect.None? ==> builder.Build() == ApplyEntryStep(old(builder.Build()), EntryChild(child).value)
    ensures defect.Some? ==> builder.Build() == old(builder.Build())
  {
    var name := WalkCategory(child);
    if name.Failure? {
      return Some(name.error);
    }
    builder.SetCategory(name.value);
    return None;
  }

  /** The `#tag` branch: add the tag's name, or throw. */
  method TakeTag(builder: EntryBuilder, child: Node) returns (defect: Option<Defect>)
    requires !HasToken(child, TOKEN_TIME) && !HasToken(child, TOKEN_TEXT) && child.id != NODE_CATEGORY
    requires child.id == NODE_TAG
    modifies builder
    ensures defect.None? <==> EntryChild(child).Success?
    ensures defect.Some? ==> EntryChild(child) == Failure(defect.value)
    ensures defect.None? ==> builder.Build() == ApplyEntryStep(old(builder.Build()), EntryChild(child).value)
    ensures defect.Some? ==> builder.Build() == old(builder.Build())
  {
    var tag := WalkTag(child);
    if tag.Failure? {
      assert EntryChild(child) == Failure(tag.error);
      return Some(tag.error);
    }
    builder.AddTag(tag.value);
    assert EntryChild(child) == Success(AddsTag(tag.value));
    return None;
  }

  /** `walkEntry`: one `EntryBuilder`, updated child by child. */
  method WalkEntry(n: Node) returns (r: Result<Entry, Defect>)
    ensures r == EntryOf(n)
  {
    var cs := n.children;
    var builder := new EntryBuilder();
    ghost var steps: seq<EntryStep> := [];
    for i := 0 to |cs|
      invariant Collect(cs[..i], EntryChild) == Success(steps)
      invariant builder.Build() == EntryBuilt(steps)
    {
      var defect := TakeEntryChild(builder, cs[i]);
      if defect.Some? {
        CollectStopsAt(cs, EntryChild, i);
        return Failure(defect.value);
      }
      EntryLoopStep(cs, i, steps, EntryChild(cs[i]).value);
      steps := steps + [EntryChild(cs[i]).value];
    }
    assert cs[..|cs|] == cs;
    return Success(builder.Build());
  }

  /** `walkDate`: one `DateBuilder`, updated child by child. */
  method WalkDate(n: Node, parse: DateParser) returns (r: Result<Date, Defect>)
    ensures r == DateOf(n, parse)
  {
    var cs := n.children;
    var builder := new DateBuilder();
    ghost var steps: seq<DateStep> := [];
    for i := 0 to |cs|
      invariant Collect(cs[..i], DateChildOf(parse)) == Success(steps)
      invariant builder.Build() == DateBuilt(steps)
    {
      var child := cs[i];

      if HasToken(child, TOKEN_DATE) {
        var date := parse(TokenValue(child));
        if date.Failure? {
          CollectStopsAt(cs, DateChildOf(parse), i);
          return Failure(date.error);
        }
        builder.SetDate(date.value);
        DateLoopStep(cs, parse, i, steps, SetsDate(date.value));
        steps := steps + [SetsDate(date.value)];
        continue;
      }

      if child.id == NODE_ENTRY {
        var entry := WalkEntry(child);
        if entry.Failure? {
          CollectStopsAt(cs, DateChildOf(parse), i);
          return Failure(entry.error);
        }
        builder.AddEntry(entry.value);
        DateLoopStep(cs, parse, i, steps, AddsEntry(entry.value));
        steps := steps + [AddsEntry(entry.value)];
        continue;
      }

      DateLoopStep(cs, parse, i, steps, Ignored);
      steps := steps + [Ignored];
    }
    assert cs[..|cs|] == cs;
    return Success(builder.Build());
  }

  /** `walk`: one `TimesheetBuilder`, one date per `#date` child of the root. */
  method Walk(root: Node, parse: DateParser) returns (r: Result<Timesheet, Defect>)
    ensures r == TimesheetOf(root, parse)
  {
    var cs := root.children;
    var builder := new TimesheetBuilder();
    ghost var steps: seq<Option<Date>> := [];
    for i := 0 to |cs|
      invariant Collect(cs[..i], RootChildOf(parse)) == Success(steps)
      invariant builder.Build() == Timesheet(DatesAdded(steps))
    {
      var child := cs[i];
      if child.id == NODE_DATE {
        var date := WalkDate(child, parse);
        if date.Failure? {
          CollectStopsAt(cs, RootChildOf(parse), i);
          return Failure(date.error);
        }
        builder.AddDate(date.value);
        RootLoopStep(cs, parse, i, steps, Some(date.value));
        steps := steps + [Some(date.value)];
      } else {
        RootLoopStep(cs, parse, i, steps, None);
        steps := steps + [None];
      }
    }
    assert cs[..|cs|] == cs;
    return Success(builder.Build());
  }
}
