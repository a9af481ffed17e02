/**
 * Concrete trees as the grammar produces them, and what the walker makes of
 * them: the worked scenarios of the timesheet format.
 */
module WalkerExamples {
  import opened Wrappers
  import opened PhpStrings
  import opened SyntaxTree
  import opened Domain
  import opened Walker
  import opened WalkerProperties

  /** A leaf carrying a token. */
  function Leaf(name: string, value: string): Node {
    Node("token", Some(Token(name, value)), [])
  }

  /** `walkTag` removes every leading `@`: `@@urgent` becomes `urgent`. */
  lemma TagStripsEveryLeadingAt()
    ensures WalkTag(Node(NODE_TAG, None, [Leaf(TOKEN_TAG, "@@urgent")])) == Success("urgent")
  {
    assert "@@urgent" == "@@" + "urgent";
    LTrimDrops("@@", "urgent", {'@'});
  }

  /** Walking a tag node built from a walked tag gives the same tag again. */
  lemma WalkTagIdempotent(n: Node)
    requires WalkTag(n).Success?
    ensures WalkTag(Node(NODE_TAG, None, [Leaf(TOKEN_TAG, WalkTag(n).value)])) == WalkTag(n)
  {
    var k := FirstWithToken(n.children, TOKEN_TAG).value;
    LTrimIdempotent(TokenValue(n.children[k]), {'@'});
  }

  /** A category node without a `name` leaf aborts its entry: no entry is produced.
      (A time leaf without `:` would abort it first, with its own defect.) */
  lemma CategoryWithoutNameAborts(time: string)
    requires ':' in time
    ensures EntryOf(Node(NODE_ENTRY, None, [Leaf(TOKEN_TIME, time), Node(NODE_CATEGORY, None, [])]))
         == Failure(MissingName("Category has no name"))
  {
    var n := Node(NODE_ENTRY, None, [Leaf(TOKEN_TIME, time), Node(NODE_CATEGORY, None, [])]);
    EntryFailsIff(n);
    assert !IsDefectiveEntryChild(n.children[0]);
    assert IsDefectiveEntryChild(n.children[1]);
  }

  /** An entry with a time, a category named `billing` and the tags `@client` and
      `@urgent`: the category is set and the tags keep their order, without `@`. */
  lemma BillingEntry()
    ensures EntryOf(Node(NODE_ENTRY, None, [
                      Leaf(TOKEN_TIME, "09:30"),
                      Node(NODE_CATEGORY, None, [Leaf(TOKEN_NAME, "billing")]),
                      Node(NODE_TAG, None, [Leaf(TOKEN_TAG, "@client")]),
                      Node(NODE_TAG, None, [Leaf(TOKEN_TAG, "@urgent")])]))
         == Success(Entry(Some(Time("09", "30")), None, Some("billing"), ["client", "urgent"]))
  {
    var time := Leaf(TOKEN_TIME, "09:30");
    var category := Node(NODE_CATEGORY, None, [Leaf(TOKEN_NAME, "billing")]);
    var client := Node(NODE_TAG, None, [Leaf(TOKEN_TAG, "@client")]);
    var urgent := Node(NODE_TAG, None, [Leaf(TOKEN_TAG, "@urgent")]);
    var cs := [time, category, client, urgent];
    var steps := [SetsTime(Time("09", "30")), SetsCategory("billing"), AddsTag("client"), AddsTag("urgent")];
    forall k | 0 <= k < |cs|
      ensures EntryChild(cs[k]) == Success(steps[k])
    {
      if k == 0 {
        HalfPastNine();
      } else if k == 1 {
        assert FirstWithToken(category.children, TOKEN_NAME) == Some(0);
      } else if k == 2 {
        assert "@client" == ['@'] + "client";
        TagWithOneAt(client, "client");
      } else {
        assert "@urgent" == ['@'] + "urgent";
        TagWithOneAt(urgent, "urgent");
      }
    }
    CollectAll(cs, EntryChild, steps);
    BillingSteps();
  }

  /** A tag node with one leaf `@name` gives `name`. */
  lemma TagWithOneAt(n: Node, name: string)
    requires name != [] && name[0] != '@'
    requires n == Node(NODE_TAG, None, [Leaf(TOKEN_TAG, ['@'] + name)])
    ensures EntryChild(n) == Success(AddsTag(name))
  {
    assert FirstWithToken(n.children, TOKEN_TAG) == Some(0);
    LTrimDrops("@", name, {'@'});
    assert WalkTag(n) == Success(name);
    assert n.id != NODE_CATEGORY by {
      assert |NODE_TAG| != |NODE_CATEGORY|;
    }
    assert IsTagNode(n);
    WalkEntryShape();
  }

  /** The builder calls of the billing entry, replayed. */
  lemma BillingSteps()
    ensures EntryBuilt([SetsTime(Time("09", "30")), SetsCategory("billing"), AddsTag("client"), AddsTag("urgent")])
         == Entry(Some(Time("09", "30")), None, Some("billing"), ["client", "urgent"])
  {
    var steps := [SetsTime(Time("09", "30")), SetsCategory("billing"), AddsTag("client"), AddsTag("urgent")];
    var time := Some(Time("09", "30"));
    assert steps[..1][..0] == [];
    assert EntryBuilt(steps[..1]) == Entry(time, None, None, []);
    assert steps[..2][..1] == steps[..1];
    assert EntryBuilt(steps[..2]) == Entry(time, None, Some("billing"), []);
    assert steps[..3][..2] == steps[..2];
    assert EntryBuilt(steps[..3]) == Entry(time, None, Some("billing"), ["client"]);
    assert steps[..3] == steps[..|steps| - 1];
  }

  /** A timesheet with one date, `2024-01-01`, holding one entry with the time
      `09:30` and the text ` stand-up `: the comment comes out trimmed. */
  lemma StandUpTimesheet(parse: DateParser)
    requires parse("2024-01-01") == Success(CalendarDate(2024, 1, 1))
    ensures TimesheetOf(Node("#timesheet", None, [
                          Node(NODE_DATE, None, [
                            Leaf(TOKEN_DATE, "2024-01-01"),
                            Node(NODE_ENTRY, None, [Leaf(TOKEN_TIME, "09:30"), Leaf(TOKEN_TEXT, " stand-up ")])])]),
                        parse)
         == Success(Timesheet([Date(Some(CalendarDate(2024, 1, 1)),
                                    [Entry(Some(Time("09", "30")), Some("stand-up"), None, [])])]))
  {
    var entry := Node(NODE_ENTRY, None, [Leaf(TOKEN_TIME, "09:30"), Leaf(TOKEN_TEXT, " stand-up ")]);
    var e := Entry(Some(Time("09", "30")), Some("stand-up"), None, []);
    StandUpEntry(entry);
    var date := Node(NODE_DATE, None, [Leaf(TOKEN_DATE, "2024-01-01"), entry]);
    DateWithOneEntry(date, "2024-01-01", entry, parse, CalendarDate(2024, 1, 1), e);
    TimesheetWithOneDate(Node("#timesheet", None, [date]), date, parse, Date(Some(CalendarDate(2024, 1, 1)), [e]));
  }

  /** A date node holding a `date` leaf and one entry gives that date with that entry. */
  lemma DateWithOneEntry(date: Node, text: string, entry: Node, parse: DateParser, cd: CalendarDate, e: Entry)
    requires date == Node(NODE_DATE, None, [Leaf(TOKEN_DATE, text), entry])
    requires entry.id == NODE_ENTRY && entry.token == None
    requires parse(text) == Success(cd)
    requires EntryOf(entry) == Success(e)
    ensures DateOf(date, parse) == Success(Date(Some(cd), [e]))
  {
    var steps := [SetsDate(cd), AddsEntry(e)];
    forall k | 0 <= k < |date.children|
      ensures DateChildOf(parse)(date.children[k]) == Success(steps[k])
    {
    }
    CollectAll(date.children, DateChildOf(parse), steps);
    assert steps[..1][..0] == [];
    assert DateBuilt(steps[..1]) == Date(Some(cd), []);
    assert steps[..1] == steps[..|steps| - 1];
    assert DateBuilt(steps) == Date(Some(cd), [] + [e]);
    assert [] + [e] == [e];
  }

  /** A root holding one date node gives a timesheet with that one date. */
  lemma TimesheetWithOneDate(root: Node, date: Node, parse: DateParser, d: Date)
    requires root.children == [date] && date.id == NODE_DATE
    requires DateOf(date, parse) == Success(d)
    ensures TimesheetOf(root, parse) == Success(Timesheet([d]))
  {
    CollectAll(root.children, RootChildOf(parse), [Some(d)]);
    assert [Some(d)][..0] == [];
    assert DatesAdded([Some(d)]) == DatesAdded([]) + [d];
    assert DatesAdded([]) + [d] == [d];
  }

  /** The entry of the stand-up timesheet. */
  lemma StandUpEntry(n: Node)
    requires n == Node(NODE_ENTRY, None, [Leaf(TOKEN_TIME, "09:30"), Leaf(TOKEN_TEXT, " stand-up ")])
    ensures EntryOf(n) == Success(Entry(Some(Time("09", "30")), Some("stand-up"), None, []))
  {
    StandUpChildren(n.children);
    StandUpSteps();
  }

  /** The children of the stand-up entry, one builder call each. */
  lemma StandUpChildren(cs: seq<Node>)
    requires cs == [Leaf(TOKEN_TIME, "09:30"), Leaf(TOKEN_TEXT, " stand-up ")]
    ensures Collect(cs, EntryChild) == Success([SetsTime(Time("09", "30")), SetsComment("stand-up")])
  {
    var steps := [SetsTime(Time("09", "30")), SetsComment("stand-up")];
    forall k | 0 <= k < |cs|
      ensures EntryChild(cs[k]) == Success(steps[k])
    {
      if k == 0 {
        HalfPastNine();
      } else {
        StandUpText();
      }
    }
    CollectAll(cs, EntryChild, steps);
  }

  /** The builder calls of the stand-up entry, replayed. */
  lemma StandUpSteps()
    ensures EntryBuilt([SetsTime(Time("09", "30")), SetsComment("stand-up")])
         == Entry(Some(Time("09", "30")), Some("stand-up"), None, [])
  {
    var steps := [SetsTime(Time("09", "30")), SetsComment("stand-up")];
    assert steps[..1][..0] == [];
    assert EntryBuilt(steps[..1]) == Entry(Some(Time("09", "30")), None, None, []);
    assert steps[..1] == steps[..|steps| - 1];
  }

  /** The time leaf `09:30` sets hour `09` and minute `30`. */
  lemma HalfPastNine()
    ensures EntryChild(Leaf(TOKEN_TIME, "09:30")) == Success(SetsTime(Time("09", "30")))
  {
    assert "09:30" == "09" + [':'] + "30";
    TimeLeaf("09", "30");
  }

  /** A time leaf `hour:minute` sets that hour and minute. */
  lemma TimeLeaf(hour: string, minute: string)
    requires ':' !in hour && ':' !in minute
    ensures EntryChild(Leaf(TOKEN_TIME, hour + [':'] + minute)) == Success(SetsTime(Time(hour, minute)))
  {
    assert hour + [':'] + minute + [] == hour + [':'] + minute;
    SplitTimeFields(hour, minute, []);
    assert IsTimeToken(Leaf(TOKEN_TIME, hour + [':'] + minute));
    WalkEntryShape();
  }

  /** The text leaf ` stand-up ` sets the comment `stand-up`. */
  lemma StandUpText()
    ensures EntryChild(Leaf(TOKEN_TEXT, " stand-up ")) == Success(SetsComment("stand-up"))
  {
    assert " stand-up " == " " + "stand-up" + " ";
    assert ' ' in Whitespace && 's' !in Whitespace && 'p' !in Whitespace;
    TrimmedText(" ", "stand-up", " ");
  }

  /** A text leaf gives its text without the surrounding whitespace. */
  lemma TrimmedText(p: string, m: string, q: string)
    requires forall i :: 0 <= i < |p| ==> p[i] in Whitespace
    requires forall i :: 0 <= i < |q| ==> q[i] in Whitespace
    requires m == [] || (m[0] !in Whitespace && m[|m| - 1] !in Whitespace)
    ensures EntryChild(Leaf(TOKEN_TEXT, p + m + q)) == Success(SetsComment(m))
  {
    var leaf := Leaf(TOKEN_TEXT, p + m + q);
    assert TOKEN_TEXT != TOKEN_TIME by {
      assert TOKEN_TEXT[1] != TOKEN_TIME[1];
    }
    assert IsTextToken(leaf);
    TrimExact(p, m, q, Whitespace);
    WalkEntryShape();
  }
}
