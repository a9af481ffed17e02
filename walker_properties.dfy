/**
 * What the walker promises, stated over the rule functions of `Walker`
 * (which `Walk`, `WalkDate` and `WalkEntry` are proved to compute): which
 * children end up where, in which order, and exactly when a walk fails.
 */
module WalkerProperties {
  import opened Wrappers
  import opened PhpStrings
  import opened SyntaxTree
  import opened Domain
  import opened Walker

  /** When every child succeeds with the given value, the walk over them collects exactly those values. */
  lemma {:induction false} CollectAll<T>(cs: seq<Node>, f: Node -> Result<T, Defect>, vs: seq<T>)
    requires |vs| == |cs|
    requires forall k :: 0 <= k < |cs| ==> f(cs[k]) == Success(vs[k])
    ensures Collect(cs, f) == Success(vs)
    decreases |cs|
  {
    if cs != [] {
      CollectAll(cs[..|cs| - 1], f, vs[..|vs| - 1]);
      assert vs == vs[..|vs| - 1] + [vs[|vs| - 1]];
    }
  }

  /** A child the selection rejects leaves the selection as it was, wherever it stands. */
  lemma SelectSkips(a: seq<Node>, c: Node, b: seq<Node>, keep: Node -> bool)
    requires !keep(c)
    ensures Select(a + [c] + b, keep) == Select(a + b, keep)
  {
    SelectAppend(a + [c], b, keep);
    SelectAppend(a, [c], keep);
    SelectAppend(a, b, keep);
    assert Select([c], keep) == [] by {
      assert [c][..0] == [];
    }
  }

  // ---------------------------------------------------------------- which children each branch takes

  /** A child of the root that `walk` turns into a date. */
  predicate IsDateNode(c: Node) {
    c.id == NODE_DATE
  }

  /** A child of a date that sets the date. */
  predicate IsDateToken(c: Node) {
    HasToken(c, TOKEN_DATE)
  }

  /** A child of a date that becomes an entry: a date leaf never does, whatever its id. */
  predicate IsEntryNode(c: Node) {
    !HasToken(c, TOKEN_DATE) && c.id == NODE_ENTRY
  }

  /** Children of an entry taken by each branch, in priority order: time, text, category, tag. */
  predicate IsTimeToken(c: Node) {
    HasToken(c, TOKEN_TIME)
  }

  predicate IsTextToken(c: Node) {
    !HasToken(c, TOKEN_TIME) && HasToken(c, TOKEN_TEXT)
  }

  predicate IsCategoryNode(c: Node) {
    !HasToken(c, TOKEN_TIME) && !HasToken(c, TOKEN_TEXT) && c.id == NODE_CATEGORY
  }

  predicate IsTagNode(c: Node) {
    !HasToken(c, TOKEN_TIME) && !HasToken(c, TOKEN_TEXT) && c.id == NODE_TAG
  }

  // ---------------------------------------------------------------- sequence helpers

  lemma CollectSnoc<T>(xs: seq<Node>, x: Node, f: Node -> Result<T, Defect>)
    ensures Collect(xs + [x], f) == (var done :- Collect(xs, f); var last :- f(x); Success(done + [last]))
  {
    assert (xs + [x])[..|xs|] == xs;
  }

  lemma {:induction false} SelectAppend(a: seq<Node>, b: seq<Node>, keep: Node -> bool)
    ensures Select(a + b, keep) == Select(a, keep) + Select(b, keep)
    decreases |b|
  {
    if b == [] {
      assert a + b == a;
    } else {
      var b' := b[..|b| - 1];
      assert (a + b)[..|a + b| - 1] == a + b';
      SelectAppend(a, b', keep);
    }
  }

  // ---------------------------------------------------------------- walk

  /** The fold of `walk` over the root's children equals walking its `#date` children
      alone. Stated for any per-child outcome `f` that adds `rule`'s date exactly for
      the children `keep` selects, so that the rules underneath stay out of the proof. */
  lemma {:induction false} CollectAddsSelected(cs: seq<Node>, f: Node -> Result<Option<Date>, Defect>,
                                               keep: Node -> bool, rule: Node -> Result<Date, Defect>)
    requires forall c :: !keep(c) ==> f(c) == Success(None)
    requires forall c :: keep(c) ==> f(c) == (var d :- rule(c); Success(Some(d)))
    ensures (var steps :- Collect(cs, f); Success(DatesAdded(steps))) == Collect(Select(cs, keep), rule)
    decreases |cs|
  {
    if cs != [] {
      var init, c := cs[..|cs| - 1], cs[|cs| - 1];
      assert cs == init + [c];
      CollectAddsSelected(init, f, keep, rule);
      CollectSnoc(init, c, f);
      var sel := Select(init, keep);
      if keep(c) {
        assert Select(cs, keep) == sel + [c];
        CollectSnoc(sel, c, rule);
        match Collect(init, f)
        case Failure(_) =>
        case Success(steps) =>
          match rule(c)
          case Failure(_) =>
          case Success(d) =>
            assert (steps + [Some(d)])[..|steps|] == steps;
      } else {
        assert Select(cs, keep) == sel;
        match Collect(init, f)
        case Failure(_) =>
        case Success(steps) =>
          assert f(c) == Success(None);
          assert Collect(cs, f) == Success(steps + [None]);
          assert (steps + [None])[..|steps|] == steps;
          assert DatesAdded(steps + [None]) == DatesAdded(steps);
      }
    }
  }

  /** `walk` gives exactly one date per `#date` child of the root, in document order,
      ignores every other child, and stops at the first date that fails; with no
      `#date` child at all, the timesheet is empty. */
  lemma WalkKeepsDateChildren(root: Node, parse: DateParser)
    ensures TimesheetOf(root, parse)
         == (var ds :- Collect(Select(root.children, IsDateNode), DateOfFn(parse)); Success(Timesheet(ds)))
    ensures var dated := Select(root.children, IsDateNode);
            TimesheetOf(root, parse).Success? ==>
              |TimesheetOf(root, parse).value.dates| == |dated| &&
              forall k :: 0 <= k < |dated| ==> DateOf(dated[k], parse) == Success(TimesheetOf(root, parse).value.dates[k])
    ensures TimesheetOf(root, parse).Failure? <==>
              exists k :: 0 <= k < |root.children| && IsDateNode(root.children[k]) && DateOf(root.children[k], parse).Failure?
    ensures TimesheetOf(root, parse).Failure? ==>
              exists k :: 0 <= k < |root.children| && IsDateNode(root.children[k]) &&
                (forall j :: 0 <= j < k && IsDateNode(root.children[j]) ==> DateOf(root.children[j], parse).Success?) &&
                DateOf(root.children[k], parse) == Failure(TimesheetOf(root, parse).error)
    ensures Select(root.children, IsDateNode) == [] ==> TimesheetOf(root, parse) == Success(Timesheet([]))
  {
    forall c
      ensures !IsDateNode(c) ==> RootChildOf(parse)(c) == Success(None)
      ensures IsDateNode(c) ==> RootChildOf(parse)(c) == (var d :- DateOfFn(parse)(c); Success(Some(d)))
    {
    }
    CollectAddsSelected(root.children, RootChildOf(parse), IsDateNode, DateOfFn(parse));
    CollectMeaning(Select(root.children, IsDateNode), DateOfFn(parse));
    CollectMeaning(root.children, RootChildOf(parse));
  }

  /** Inserting a child that is not a `#date` node anywhere under the root changes nothing. */
  lemma WalkIgnoresOtherChildren(root: Node, c: Node, i: nat, parse: DateParser)
    requires i <= |root.children|
    requires !IsDateNode(c)
    ensures TimesheetOf(root.(children := root.children[..i] + [c] + root.children[i..]), parse)
         == TimesheetOf(root, parse)
  {
    var cs := root.children;
    var cs' := cs[..i] + [c] + cs[i..];
    SelectSkips(cs[..i], c, cs[i..], IsDateNode);
    assert cs[..i] + cs[i..] == cs;
    WalkKeepsDateChildren(root, parse);
    WalkKeepsDateChildren(root.(children := cs'), parse);
  }

  // ---------------------------------------------------------------- what a date holds

  /** The shape of the per-child outcome in `walkDate`: a `date` leaf sets the
      parsed date, an entry child adds the entry `entry` gives, anything else is
      ignored. Stated for any entry rule, so that it stays out of the proofs below. */
  ghost predicate DateRuleShape(f: Node -> Result<DateStep, Defect>, parse: DateParser,
                                entry: Node -> Result<Entry, Defect>)
  {
    (forall c :: IsDateToken(c) ==> f(c) == (var d :- parse(TokenValue(c)); Success(SetsDate(d)))) &&
    (forall c :: IsEntryNode(c) ==> f(c) == (var e :- entry(c); Success(AddsEntry(e)))) &&
    (forall c :: !IsDateToken(c) && !IsEntryNode(c) ==> f(c) == Success(Ignored))
  }

  /** The date's children, split into the ones before the last and the last, with
      the replayed calls split alike. */
  lemma DateStepsSnoc(cs: seq<Node>, f: Node -> Result<DateStep, Defect>, steps: seq<DateStep>)
    requires cs != []
    requires Collect(cs, f) == Success(steps)
    ensures Collect(cs[..|cs| - 1], f) == Success(steps[..|steps| - 1])
    ensures steps != [] && f(cs[|cs| - 1]) == Success(steps[|steps| - 1])
    ensures DateBuilt(steps) == ApplyDateStep(DateBuilt(steps[..|steps| - 1]), steps[|steps| - 1])
  {
    var before := Collect(cs[..|cs| - 1], f).value;
    assert steps == before + [f(cs[|cs| - 1]).value];
    assert steps[..|steps| - 1] == before;
  }

  /** Under that shape, a date comes only from a `date` leaf and an entry only from
      an entry child, each carrying what its rule gave. */
  lemma DateStepKind(f: Node -> Result<DateStep, Defect>, parse: DateParser,
                     entry: Node -> Result<Entry, Defect>, c: Node, step: DateStep)
    requires DateRuleShape(f, parse, entry)
    requires f(c) == Success(step)
    ensures step.SetsDate? <==> IsDateToken(c)
    ensures step.AddsEntry? <==> IsEntryNode(c)
    ensures IsDateToken(c) ==> parse(TokenValue(c)) == Success(step.date)
    ensures IsEntryNode(c) ==> entry(c) == Success(step.entry)
  {
  }

  /** The entries of the entry children, in order: the replayed `addEntry` calls. */
  lemma {:induction false} DateEntriesBuild(cs: seq<Node>, f: Node -> Result<DateStep, Defect>, parse: DateParser,
                                            entry: Node -> Result<Entry, Defect>, steps: seq<DateStep>)
    requires DateRuleShape(f, parse, entry)
    requires Collect(cs, f) == Success(steps)
    ensures Collect(Select(cs, IsEntryNode), entry) == Success(DateBuilt(steps).entries)
    decreases |cs|
  {
    if cs != [] {
      var init, c := cs[..|cs| - 1], cs[|cs| - 1];
      DateStepsSnoc(cs, f, steps);
      DateEntriesBuild(init, f, parse, entry, steps[..|steps| - 1]);
      DateStepKind(f, parse, entry, c, steps[|steps| - 1]);
      var before := DateBuilt(steps[..|steps| - 1]);
      if IsEntryNode(c) {
        CollectSnoc(Select(init, IsEntryNode), c, entry);
        assert Select(cs, IsEntryNode) == Select(init, IsEntryNode) + [c];
        assert DateBuilt(steps).entries == before.entries + [steps[|steps| - 1].entry];
      } else {
        assert Select(cs, IsEntryNode) == Select(init, IsEntryNode);
        assert DateBuilt(steps).entries == before.entries;
      }
    }
  }

  /** The date of the last `date` leaf, or none: the replayed `date` calls, each
      overwriting the one before. */
  lemma {:induction false} DateDateBuild(cs: seq<Node>, f: Node -> Result<DateStep, Defect>, parse: DateParser,
                                         entry: Node -> Result<Entry, Defect>, steps: seq<DateStep>)
    requires DateRuleShape(f, parse, entry)
    requires Collect(cs, f) == Success(steps)
    ensures DateBuilt(steps).date.None? <==> Select(cs, IsDateToken) == []
    ensures Select(cs, IsDateToken) != [] ==>
              parse(TokenValue(Last(Select(cs, IsDateToken)))) == Success(DateBuilt(steps).date.value)
    decreases |cs|
  {
    if cs != [] {
      DateStepsSnoc(cs, f, steps);
      DateDateBuild(cs[..|cs| - 1], f, parse, entry, steps[..|steps| - 1]);
      DateStepKind(f, parse, entry, cs[|cs| - 1], steps[|steps| - 1]);
    }
  }

  /** What `walkDate` builds for a `#date` node, child class by child class. */
  lemma DateFields(n: Node, parse: DateParser)
    ensures DateOf(n, parse).Success? ==>
              Collect(Select(n.children, IsEntryNode), EntryOf) == Success(DateOf(n, parse).value.entries)
    ensures DateOf(n, parse).Success? ==>
              (DateOf(n, parse).value.date.None? <==> Select(n.children, IsDateToken) == [])
    ensures DateOf(n, parse).Success? && Select(n.children, IsDateToken) != [] ==>
              parse(TokenValue(Last(Select(n.children, IsDateToken)))) == Success(DateOf(n, parse).value.date.value)
  {
    forall c
      ensures IsDateToken(c) ==> DateChildOf(parse)(c) == (var d :- parse(TokenValue(c)); Success(SetsDate(d)))
      ensures IsEntryNode(c) ==> DateChildOf(parse)(c) == (var e :- EntryOf(c); Success(AddsEntry(e)))
      ensures !IsDateToken(c) && !IsEntryNode(c) ==> DateChildOf(parse)(c) == Success(Ignored)
    {
    }
    if DateOf(n, parse).Success? {
      var steps := Collect(n.children, DateChildOf(parse)).value;
      DateEntriesBuild(n.children, DateChildOf(parse), parse, EntryOf, steps);
      DateDateBuild(n.children, DateChildOf(parse), parse, EntryOf, steps);
    }
  }

  /** A child of a `#date` node that throws: a `date` leaf that does not parse, or
      an `#entry` child whose walk fails. */
  predicate IsDefectiveDateChild(c: Node, parse: DateParser) {
    (IsDateToken(c) && parse(TokenValue(c)).Failure?) ||
    (IsEntryNode(c) && EntryOf(c).Failure?)
  }

  /** `walkDate` fails exactly when a `date` leaf does not parse or an entry child
      fails, and then with the defect of the first such child, unchanged. */
  lemma DateFailsIff(n: Node, parse: DateParser)
    ensures DateOf(n, parse).Failure? <==>
              exists k :: 0 <= k < |n.children| &&
                ((IsDateToken(n.children[k]) && parse(TokenValue(n.children[k])).Failure?) ||
                 (IsEntryNode(n.children[k]) && EntryOf(n.children[k]).Failure?))
    ensures DateOf(n, parse).Failure? ==>
              exists k :: 0 <= k < |n.children| && IsDefectiveDateChild(n.children[k], parse) &&
                (forall j :: 0 <= j < k ==> !IsDefectiveDateChild(n.children[j], parse)) &&
                ((IsDateToken(n.children[k]) && parse(TokenValue(n.children[k])) == Failure(DateOf(n, parse).error)) ||
                 (IsEntryNode(n.children[k]) && EntryOf(n.children[k]) == Failure(DateOf(n, parse).error)))
  {
    forall c | c in n.children
      ensures DateChild(c, parse).Failure? <==> IsDefectiveDateChild(c, parse)
    {
    }
    CollectMeaning(n.children, DateChildOf(parse));
  }

  // ---------------------------------------------------------------- what an entry holds

  /** The shape of the per-child outcome in `walkEntry`: the first matching branch,
      time, then text, then category, then tag, makes its call or throws. Stated for
      any rule behind each branch, so that those stay out of the proofs below. */
  /** The rules behind the four branches of `walkEntry`. */
  datatype EntryRules = EntryRules(time: string -> Result<Time, Defect>, text: string -> string,
                                   category: Node -> Result<string, Defect>, tag: Node -> Result<string, Defect>)

  /** The comment rule: `trim` with PHP's default character list. */
  function TrimComment(text: string): string {
    Trim(text, Whitespace)
  }

  /** The rules `walkEntry` uses. */
  function WalkEntryRules(): EntryRules {
    EntryRules(SplitTime, TrimComment, WalkCategory, WalkTag)
  }

  ghost predicate EntryRuleShape(f: Node -> Result<EntryStep, Defect>, rules: EntryRules)
  {
    var EntryRules(time, text, category, tag) := rules;
    (forall c :: IsTimeToken(c) ==> f(c) == (var t :- time(TokenValue(c)); Success(SetsTime(t)))) &&
    (forall c :: IsTextToken(c) ==> f(c) == Success(SetsComment(text(TokenValue(c))))) &&
    (forall c :: IsCategoryNode(c) ==> f(c) == (var name :- category(c); Success(SetsCategory(name)))) &&
    (forall c :: IsTagNode(c) ==> f(c) == (var t :- tag(c); Success(AddsTag(t)))) &&
    (forall c :: !IsTimeToken(c) && !IsTextToken(c) && !IsCategoryNode(c) && !IsTagNode(c) ==>
       f(c) == Success(Skipped))
  }

  /** The entry's children, split into the ones before the last and the last, with
      the replayed calls split alike. */
  lemma EntryStepsSnoc(cs: seq<Node>, f: Node -> Result<EntryStep, Defect>, steps: seq<EntryStep>)
    requires cs != []
    requires Collect(cs, f) == Success(steps)
    ensures Collect(cs[..|cs| - 1], f) == Success(steps[..|steps| - 1])
    ensures steps != [] && f(cs[|cs| - 1]) == Success(steps[|steps| - 1])
    ensures EntryBuilt(steps) == ApplyEntryStep(EntryBuilt(steps[..|steps| - 1]), steps[|steps| - 1])
  {
    var before := Collect(cs[..|cs| - 1], f).value;
    assert steps == before + [f(cs[|cs| - 1]).value];
    assert steps[..|steps| - 1] == before;
  }

  /** Under that shape, each kind of call comes from exactly one kind of child, and
      carries what that branch's rule gave. */
  lemma EntryStepKind(f: Node -> Result<EntryStep, Defect>, rules: EntryRules, c: Node, step: EntryStep)
    requires EntryRuleShape(f, rules)
    requires f(c) == Success(step)
    ensures step.SetsTime? <==> IsTimeToken(c)
    ensures step.SetsComment? <==> IsTextToken(c)
    ensures step.SetsCategory? <==> IsCategoryNode(c)
    ensures step.AddsTag? <==> IsTagNode(c)
    ensures IsTimeToken(c) ==> rules.time(TokenValue(c)) == Success(step.time)
    ensures IsTextToken(c) ==> rules.text(TokenValue(c)) == step.comment
    ensures IsCategoryNode(c) ==> rules.category(c) == Success(step.category)
    ensures IsTagNode(c) ==> rules.tag(c) == Success(step.tag)
  {
    assert NODE_CATEGORY != NODE_TAG by {
      assert |NODE_CATEGORY| != |NODE_TAG|;
    }
  }

  /** One tag per tag node, in order: the replayed `addTag` calls. */
  lemma {:induction false} EntryTagsBuild(cs: seq<Node>, f: Node -> Result<EntryStep, Defect>,
                                          rules: EntryRules, steps: seq<EntryStep>)
    requires EntryRuleShape(f, rules)
    requires Collect(cs, f) == Success(steps)
    ensures Collect(Select(cs, IsTagNode), rules.tag) == Success(EntryBuilt(steps).tags)
    decreases |cs|
  {
    if cs != [] {
      var init, c := cs[..|cs| - 1], cs[|cs| - 1];
      EntryStepsSnoc(cs, f, steps);
      EntryTagsBuild(init, f, rules, steps[..|steps| - 1]);
      EntryStepKind(f, rules, c, steps[|steps| - 1]);
      var last := steps[|steps| - 1];
      var before := EntryBuilt(steps[..|steps| - 1]);
      if IsTagNode(c) {
        CollectSnoc(Select(init, IsTagNode), c, rules.tag);
        assert Select(cs, IsTagNode) == Select(init, IsTagNode) + [c];
        assert EntryBuilt(steps).tags == before.tags + [last.tag];
      } else {
        assert Select(cs, IsTagNode) == Select(init, IsTagNode);
        assert EntryBuilt(steps).tags == before.tags;
      }
    }
  }

  /** The time of the last `time` leaf, or none: the replayed `setTime` calls. */
  lemma {:induction false} EntryTimeBuild(cs: seq<Node>, f: Node -> Result<EntryStep, Defect>,
                                          rules: EntryRules, steps: seq<EntryStep>)
    requires EntryRuleShape(f, rules)
    requires Collect(cs, f) == Success(steps)
    ensures EntryBuilt(steps).time.None? <==> Select(cs, IsTimeToken) == []
    ensures Select(cs, IsTimeToken) != [] ==>
              rules.time(TokenValue(Last(Select(cs, IsTimeToken)))) == Success(EntryBuilt(steps).time.value)
    decreases |cs|
  {
    if cs != [] {
      EntryStepsSnoc(cs, f, steps);
      EntryTimeBuild(cs[..|cs| - 1], f, rules, steps[..|steps| - 1]);
      EntryStepKind(f, rules, cs[|cs| - 1], steps[|steps| - 1]);
    }
  }

  /** The trimmed text of the last `text` leaf, or none: the replayed `setComment` calls. */
  lemma {:induction false} EntryCommentBuild(cs: seq<Node>, f: Node -> Result<EntryStep, Defect>,
                                             rules: EntryRules, steps: seq<EntryStep>)
    requires EntryRuleShape(f, rules)
    requires Collect(cs, f) == Success(steps)
    ensures EntryBuilt(steps).comment.None? <==> Select(cs, IsTextToken) == []
    ensures Select(cs, IsTextToken) != [] ==>
              EntryBuilt(steps).comment.value == rules.text(TokenValue(Last(Select(cs, IsTextToken))))
    decreases |cs|
  {
    if cs != [] {
      EntryStepsSnoc(cs, f, steps);
      EntryCommentBuild(cs[..|cs| - 1], f, rules, steps[..|steps| - 1]);
      EntryStepKind(f, rules, cs[|cs| - 1], steps[|steps| - 1]);
    }
  }

  /** The category of the last category node, or none: the replayed `setCategory` calls. */
  lemma {:induction false} EntryCategoryBuild(cs: seq<Node>, f: Node -> Result<EntryStep, Defect>,
                                              rules: EntryRules, steps: seq<EntryStep>)
    requires EntryRuleShape(f, rules)
    requires Collect(cs, f) == Success(steps)
    ensures EntryBuilt(steps).category.None? <==> Select(cs, IsCategoryNode) == []
    ensures Select(cs, IsCategoryNode) != [] ==>
              rules.category(Last(Select(cs, IsCategoryNode))) == Success(EntryBuilt(steps).category.value)
    decreases |cs|
  {
    if cs != [] {
      EntryStepsSnoc(cs, f, steps);
      EntryCategoryBuild(cs[..|cs| - 1], f, rules, steps[..|steps| - 1]);
      EntryStepKind(f, rules, cs[|cs| - 1], steps[|steps| - 1]);
    }
  }

  /** `EntryChild` has the shape above with the rules `walkEntry` uses. */
  lemma WalkEntryShape()
    ensures EntryRuleShape(EntryChild, WalkEntryRules())
  {
    forall c
      ensures IsTimeToken(c) ==> EntryChild(c) == (var t :- SplitTime(TokenValue(c)); Success(SetsTime(t)))
      ensures IsTextToken(c) ==> EntryChild(c) == Success(SetsComment(TrimComment(TokenValue(c))))
      ensures IsCategoryNode(c) ==> EntryChild(c) == (var name :- WalkCategory(c); Success(SetsCategory(name)))
      ensures IsTagNode(c) ==> EntryChild(c) == (var t :- WalkTag(c); Success(AddsTag(t)))
      ensures !IsTimeToken(c) && !IsTextToken(c) && !IsCategoryNode(c) && !IsTagNode(c) ==>
                EntryChild(c) == Success(Skipped)
    {
    }
  }

  /** What `walkEntry` builds for an `#entry` node, child class by child class; the
      comment neither begins nor ends with whitespace and no tag begins with `@`. */
  lemma EntryFields(n: Node)
    ensures EntryOf(n).Success? ==> Collect(Select(n.children, IsTagNode), WalkTag) == Success(EntryOf(n).value.tags)
    ensures EntryOf(n).Success? ==> (EntryOf(n).value.time.None? <==> Select(n.children, IsTimeToken) == [])
    ensures EntryOf(n).Success? && Select(n.children, IsTimeToken) != [] ==>
              SplitTime(TokenValue(Last(Select(n.children, IsTimeToken)))) == Success(EntryOf(n).value.time.value)
    ensures EntryOf(n).Success? ==> (EntryOf(n).value.comment.None? <==> Select(n.children, IsTextToken) == [])
    ensures EntryOf(n).Success? && Select(n.children, IsTextToken) != [] ==>
              EntryOf(n).value.comment.value == Trim(TokenValue(Last(Select(n.children, IsTextToken))), Whitespace)
    ensures EntryOf(n).Success? ==> (EntryOf(n).value.category.None? <==> Select(n.children, IsCategoryNode) == [])
    ensures EntryOf(n).Success? && Select(n.children, IsCategoryNode) != [] ==>
              WalkCategory(Last(Select(n.children, IsCategoryNode))) == Success(EntryOf(n).value.category.value)
    ensures EntryOf(n).Success? && EntryOf(n).value.comment.Some? ==>
              var text := EntryOf(n).value.comment.value;
              text == [] || (text[0] !in Whitespace && text[|text| - 1] !in Whitespace)
    ensures EntryOf(n).Success? ==>
              forall k :: 0 <= k < |EntryOf(n).value.tags| ==>
                EntryOf(n).value.tags[k] == [] || EntryOf(n).value.tags[k][0] != '@'
  {
    WalkEntryShape();
    if EntryOf(n).Success? {
      var steps := Collect(n.children, EntryChild).value;
      EntryTagsBuild(n.children, EntryChild, WalkEntryRules(), steps);
      EntryTimeBuild(n.children, EntryChild, WalkEntryRules(), steps);
      EntryCommentBuild(n.children, EntryChild, WalkEntryRules(), steps);
      EntryCategoryBuild(n.children, EntryChild, WalkEntryRules(), steps);
      var tagged := Select(n.children, IsTagNode);
      var tags := EntryOf(n).value.tags;
      CollectMeaning(tagged, WalkTag);
      forall k | 0 <= k < |tags|
        ensures tags[k] == [] || tags[k][0] != '@'
      {
        WalkTagMeaning(tagged[k]);
      }
    }
  }

  /** A child of an entry that makes `walkEntry` throw: a time with no `:`, a
      category node without a `name` leaf, or a tag node without a `tag` leaf. */
  predicate IsDefectiveEntryChild(c: Node) {
    (IsTimeToken(c) && ':' !in TokenValue(c)) ||
    (IsCategoryNode(c) && forall j :: 0 <= j < |c.children| ==> !HasToken(c.children[j], TOKEN_NAME)) ||
    (IsTagNode(c) && forall j :: 0 <= j < |c.children| ==> !HasToken(c.children[j], TOKEN_TAG))
  }

  /** One child of an entry fails exactly when it is defective. */
  lemma EntryChildFailsIff(c: Node)
    ensures EntryChild(c).Failure? <==> IsDefectiveEntryChild(c)
  {
    if IsCategoryNode(c) {
      WalkCategoryMeaning(c);
    } else if IsTagNode(c) {
      WalkTagMeaning(c);
    }
  }

  /** `walkEntry` fails exactly when one of the entry's children is defective, and
      then with the defect of the first defective child. */
  lemma EntryFailsIff(n: Node)
    ensures EntryOf(n).Failure? <==> exists k :: 0 <= k < |n.children| && IsDefectiveEntryChild(n.children[k])
    ensures EntryOf(n).Failure? ==>
              exists k :: 0 <= k < |n.children| && IsDefectiveEntryChild(n.children[k]) &&
                (forall j :: 0 <= j < k ==> !IsDefectiveEntryChild(n.children[j])) &&
                EntryChild(n.children[k]) == Failure(EntryOf(n).error)
  {
    forall c | c in n.children
      ensures EntryChild(c).Failure? <==> IsDefectiveEntryChild(c)
    {
      EntryChildFailsIff(c);
    }
    CollectMeaning(n.children, EntryChild);
  }

  /** A defect anywhere below the root aborts the whole walk: an entry that fails
      inside a `#date` child of the root leaves no timesheet at all. */
  lemma NestedDefectAborts(root: Node, parse: DateParser, i: nat, k: nat, j: nat)
    requires i < |root.children| && IsDateNode(root.children[i])
    requires k < |root.children[i].children|
    requires IsEntryNode(root.children[i].children[k])
    requires j < |root.children[i].children[k].children|
    requires IsDefectiveEntryChild(root.children[i].children[k].children[j])
    ensures TimesheetOf(root, parse).Failure?
  {
    var entry := root.children[i].children[k];
    EntryFailsIff(entry);
    DateFailsIff(root.children[i], parse);
    WalkKeepsDateChildren(root, parse);
  }

  // ---------------------------------------------------------------- the time token

  /** `explode(':', ...)` on a time token: the hour is everything before the first
      `:`, the minute everything between the first and the second, and whatever
      follows a second `:` is dropped. */
  lemma SplitTimeFields(hour: string, minute: string, rest: string)
    requires ':' !in hour && ':' !in minute
    requires rest == [] || rest[0] == ':'
    ensures SplitTime(hour + [':'] + minute + rest) == Success(Time(hour, minute))
  {
    assert hour + [':'] + minute + rest == hour + [':'] + (minute + rest);
    ExplodeAtFirst(hour, minute + rest, ':');
    if rest == [] {
      assert minute + rest == minute;
      ExplodeWhole(minute, ':');
    } else {
      assert minute + rest == minute + [':'] + rest[1..];
      ExplodeAtFirst(minute, rest[1..], ':');
    }
  }

  /** Conversely, every time `SplitTime` accepts is laid out that way. */
  lemma SplitTimeLayout(text: string)
    requires SplitTime(text).Success?
    ensures exists rest :: (rest == [] || rest[0] == ':') &&
              text == SplitTime(text).value.hour + [':'] + SplitTime(text).value.minute + rest
  {
    var parts := Explode(text, ':');
    ImplodeExplode(text, ':');
    assert Implode(parts, ':') == parts[0] + [':'] + Implode(parts[1..], ':');
    var tail := parts[1..];
    if |tail| == 1 {
      assert text == parts[0] + [':'] + parts[1] + [];
    } else {
      assert Implode(tail, ':') == tail[0] + [':'] + Implode(tail[1..], ':');
      var rest := [':'] + Implode(tail[1..], ':');
      assert text == parts[0] + [':'] + parts[1] + rest;
    }
  }
}
