/**
 * The ConversationHistory sidebar: saved conversations are given a summary
 * and a timestamp, sorted into five date sections, and the non-empty
 * sections are listed. Dates are integer milliseconds; the current time and
 * the starts of today and yesterday are inputs.
 */
module ConversationHistory {

  /** A timestamp as `new Date(...)` sees it: missing, unparseable, or a time in milliseconds. */
  datatype Stamp = Absent | Unparsable | Millis(ms: int)

  datatype Message = Message(content: string, timestamp: Stamp)

  /** A saved conversation; an empty `summary` is a missing one. */
  datatype Conversation = Conversation(id: string, summary: string, timestamp: Stamp, messages: seq<Message>)

  /** The five sections, newest first. */
  datatype Bucket = Recent | Yesterday | LastWeek | LastMonth | Older

  /** The current time and the local midnights that start today and yesterday. */
  datatype Clock = Clock(now: int, startOfToday: int, startOfYesterday: int)

  predicate ClockOrdered(clock: Clock) {
    clock.startOfYesterday <= clock.startOfToday <= clock.now
  }

  const DayMs: int := 1000 * 60 * 60 * 24
  const DefaultSummary: string := "Nouvelle conversation"

  /** The heading shown above a section. */
  function Title(b: Bucket): string {
    match b
    case Recent => "Récent"
    case Yesterday => "Hier"
    case LastWeek => "7 jours précédents"
    case LastMonth => "30 jours précédents"
    case Older => "2024"
  }

  /** The position of a section in newest-first order. */
  function Rank(b: Bucket): nat {
    match b
    case Recent => 0
    case Yesterday => 1
    case LastWeek => 2
    case LastMonth => 3
    case Older => 4
  }

  /**
   * The copy made for display: the summary falls back to the first
   * message's text and then to a default, the timestamp to the first
   * message's timestamp; everything else is kept.
   */
  function Normalize(c: Conversation): (n: Conversation)
    ensures n.id == c.id && n.messages == c.messages
    ensures n.summary != ""
    ensures c.summary != "" ==> n.summary == c.summary
    ensures c.summary == "" && c.messages != [] && c.messages[0].content != "" ==> n.summary == c.messages[0].content
    ensures c.summary == "" && (c.messages == [] || c.messages[0].content == "") ==> n.summary == DefaultSummary
    ensures c.timestamp != Absent ==> n.timestamp == c.timestamp
    ensures c.timestamp == Absent && c.messages != [] ==> n.timestamp == c.messages[0].timestamp
    ensures c.timestamp == Absent && c.messages == [] ==> n.timestamp == Absent
  {
    var summary :=
      if c.summary != "" then c.summary
      else if c.messages != [] && c.messages[0].content != "" then c.messages[0].content
      else DefaultSummary;
    var timestamp :=
      if c.timestamp != Absent then c.timestamp
      else if c.messages != [] then c.messages[0].timestamp
      else Absent;
    c.(summary := summary, timestamp := timestamp)
  }

  /** The display copy is already normal. */
  lemma NormalizeIdempotent(c: Conversation)
    ensures Normalize(Normalize(c)) == Normalize(c)
  {
  }

  function Normalized(cs: seq<Conversation>): (ns: seq<Conversation>)
    ensures |ns| == |cs|
    ensures forall i :: 0 <= i < |cs| ==> ns[i] == Normalize(cs[i])
  {
    seq(|cs|, i requires 0 <= i < |cs| => Normalize(cs[i]))
  }

  /**
   * The section of one timestamp, decided in order: from the start of today,
   * from the start of yesterday, fewer than 7 whole days ago, fewer than 30,
   * and otherwise "2024". A missing or unparseable date fails every test.
   * As time ranges, the whole-day tests are the same as comparing the age
   * with 7 and 30 days.
   */
  function Classify(t: Stamp, clock: Clock): (b: Bucket)
    ensures !t.Millis? ==> b == Older
    ensures t.Millis? ==> (b == Recent <==> t.ms >= clock.startOfToday)
    ensures t.Millis? ==> (b == Yesterday <==> clock.startOfYesterday <= t.ms < clock.startOfToday)
    ensures t.Millis? ==>
              (b == LastWeek <==> t.ms < clock.startOfToday && t.ms < clock.startOfYesterday && clock.now - t.ms < 7 * DayMs)
    ensures t.Millis? ==>
              (b == LastMonth <==> t.ms < clock.startOfToday && t.ms < clock.startOfYesterday
                                   && 7 * DayMs <= clock.now - t.ms < 30 * DayMs)
    ensures t.Millis? ==>
              (b == Older <==> t.ms < clock.startOfToday && t.ms < clock.startOfYesterday && clock.now - t.ms >= 30 * DayMs)
  {
    match t
    case Millis(ms) =>
      var diffDays := (clock.now - ms) / DayMs;
      assert diffDays < 7 <==> clock.now - ms < 7 * DayMs;
      assert diffDays < 30 <==> clock.now - ms < 30 * DayMs;
      if ms >= clock.startOfToday then Recent
      else if ms >= clock.startOfYesterday then Yesterday
      else if diffDays < 7 then LastWeek
      else if diffDays < 30 then LastMonth
      else Older
    case _ => Older
  }

  /** A date in the future is recent. */
  lemma ClassifyEdgeCases(t: Stamp, clock: Clock)
    requires ClockOrdered(clock)
    ensures t.Millis? && t.ms > clock.now ==> Classify(t, clock) == Recent
  {
  }

  /** A later time never lands in a later section. */
  lemma ClassifyMonotone(a: int, b: int, clock: Clock)
    requires clock.startOfYesterday <= clock.startOfToday
    requires b <= a
    ensures Rank(Classify(Millis(a), clock)) <= Rank(Classify(Millis(b), clock))
  {
  }

  /** The conversations of `cs` that fall in section `b`, in their order in `cs`. */
  function Section(cs: seq<Conversation>, b: Bucket, clock: Clock): seq<Conversation> {
    if cs == [] then []
    else
      var last := cs[|cs| - 1];
      Section(cs[..|cs| - 1], b, clock) + (if Classify(last.timestamp, clock) == b then [last] else [])
  }

  /** The five section lists the loop builds. */
  datatype Groups = Groups(recent: seq<Conversation>, yesterday: seq<Conversation>,
                           lastWeek: seq<Conversation>, lastMonth: seq<Conversation>,
                           older: seq<Conversation>)
  {
    function Get(b: Bucket): seq<Conversation> {
      match b
      case Recent => recent
      case Yesterday => yesterday
      case LastWeek => lastWeek
      case LastMonth => lastMonth
      case Older => older
    }

    /** `groups[b].push(c)`. */
    function Push(b: Bucket, c: Conversation): (g: Groups)
      ensures g.Get(b) == Get(b) + [c]
      ensures forall other :: other != b ==> g.Get(other) == Get(other)
    {
      match b
      case Recent => this.(recent := recent + [c])
      case Yesterday => this.(yesterday := yesterday + [c])
      case LastWeek => this.(lastWeek := lastWeek + [c])
      case LastMonth => this.(lastMonth := lastMonth + [c])
      case Older => this.(older := older + [c])
    }
  }

  /** The grouping as a function of the display copies. */
  function GroupsOf(cs: seq<Conversation>, clock: Clock): (g: Groups)
    ensures forall b :: g.Get(b) == Section(cs, b, clock)
  {
    Groups(Section(cs, Recent, clock), Section(cs, Yesterday, clock), Section(cs, LastWeek, clock),
           Section(cs, LastMonth, clock), Section(cs, Older, clock))
  }

  /**
   * `groupMessagesByDate`: make the display copies, then push each one onto
   * the list of its section.
   */
  method GroupByDate(conversations: seq<Conversation>, clock: Clock) returns (groups: Groups)
    ensures groups == GroupsOf(Normalized(conversations), clock)
  {
    var all := Normalized(conversations);
    groups := Groups([], [], [], [], []);
    var i := 0;
    while i < |all|
      invariant 0 <= i <= |all|
      invariant forall b :: groups.Get(b) == Section(all[..i], b, clock)
    {
      assert all[..i + 1][..i] == all[..i];
      groups := groups.Push(Classify(all[i].timestamp, clock), all[i]);
      i := i + 1;
    }
    assert all[..i] == all;
  }

  /** Every conversation is in exactly one section: the sizes add up. */
  lemma {:induction false} SectionSizes(cs: seq<Conversation>, clock: Clock)
    ensures |Section(cs, Recent, clock)| + |Section(cs, Yesterday, clock)| + |Section(cs, LastWeek, clock)|
            + |Section(cs, LastMonth, clock)| + |Section(cs, Older, clock)| == |cs|
  {
    if cs != [] {
      SectionSizes(cs[..|cs| - 1], clock);
    }
  }

  /** A section holds exactly the conversations classified into it. */
  lemma {:induction false} SectionMembers(cs: seq<Conversation>, b: Bucket, clock: Clock)
    ensures forall c :: c in Section(cs, b, clock) <==> c in cs && Classify(c.timestamp, clock) == b
  {
    if cs != [] {
      SectionMembers(cs[..|cs| - 1], b, clock);
      assert cs == cs[..|cs| - 1] + [cs[|cs| - 1]];
    }
  }

  /** The indices of `cs` that fall in section `b`, in increasing order. */
  function Positions(cs: seq<Conversation>, b: Bucket, clock: Clock): (ps: seq<nat>)
    ensures forall k :: 0 <= k < |ps| ==> ps[k] < |cs|
    ensures forall j, k :: 0 <= j < k < |ps| ==> ps[j] < ps[k]
    ensures forall i :: 0 <= i < |cs| ==> (i in ps <==> Classify(cs[i].timestamp, clock) == b)
  {
    if cs == [] then []
    else
      var n := |cs| - 1;
      var prefix := Positions(cs[..n], b, clock);
      assert forall i :: 0 <= i < n ==> cs[..n][i] == cs[i];
      prefix + (if Classify(cs[n].timestamp, clock) == b then [n] else [])
  }

  /** A section is its conversations taken in input order: `cs` read at the section's positions. */
  lemma {:induction false} SectionKeepsOrder(cs: seq<Conversation>, b: Bucket, clock: Clock)
    ensures |Section(cs, b, clock)| == |Positions(cs, b, clock)|
    ensures forall k :: 0 <= k < |Section(cs, b, clock)| ==> Section(cs, b, clock)[k] == cs[Positions(cs, b, clock)[k]]
  {
    if cs != [] {
      var n := |cs| - 1;
      SectionKeepsOrder(cs[..n], b, clock);
      var before := Section(cs[..n], b, clock);
      var at := Positions(cs[..n], b, clock);
      assert Section(cs, b, clock)[..|before|] == before;
      assert Positions(cs, b, clock)[..|at|] == at;
      forall k | 0 <= k < |before|
        ensures Section(cs, b, clock)[k] == cs[Positions(cs, b, clock)[k]]
      {
        assert Section(cs, b, clock)[k] == before[k];
        assert Positions(cs, b, clock)[k] == at[k];
        assert cs[..n][at[k]] == cs[at[k]];
      }
    }
  }

  /**
   * The order the sections are meant to be listed in, newest first, and the
   * order `Object.entries` actually yields: "2024" is an integer-like key,
   * and such keys are enumerated before all others.
   */
  const DisplayOrder: seq<Bucket> := [Recent, Yesterday, LastWeek, LastMonth, Older]
  const DisplayOrderAsWritten: seq<Bucket> := [Older, Recent, Yesterday, LastWeek, LastMonth]

  /** The value of a string of decimal digits. */
  function DecimalValue(digits: string): nat {
    if digits == [] then 0
    else 10 * DecimalValue(digits[..|digits| - 1]) + (digits[|digits| - 1] as int - '0' as int) % 10
  }

  /** An array index key: the canonical decimal form of an integer below 2^32 - 1. */
  predicate IsArrayIndexKey(key: string) {
    && key != []
    && (forall k :: 0 <= k < |key| ==> '0' <= key[k] <= '9')
    && (key[0] != '0' || |key| == 1)
    && DecimalValue(key) < 0x1_0000_0000 - 1
  }

  /** The section's title is an array index key. */
  predicate HasIndexKey(b: Bucket) {
    IsArrayIndexKey(Title(b))
  }

  /** Of the section titles, only "2024" is an array index key. */
  lemma TitleIndexKey(b: Bucket)
    ensures HasIndexKey(b) <==> b == Older
  {
    match b
    case Recent => NotDigitAt(Title(b), 0);
    case Yesterday => NotDigitAt(Title(b), 0);
    case LastWeek => NotDigitAt(Title(b), 1);
    case LastMonth => NotDigitAt(Title(b), 2);
    case Older => YearValue(Title(b));
  }

  lemma NotDigitAt(key: string, k: int)
    requires 0 <= k < |key| && !('0' <= key[k] <= '9')
    ensures !IsArrayIndexKey(key)
  {
  }

  lemma YearValue(key: string)
    requires key == "2024"
    ensures IsArrayIndexKey(key)
  {
    assert key[..3][..2][..1][..0] == [];
    assert DecimalValue(key[..3][..2][..1]) == 2;
    assert DecimalValue(key[..3][..2]) == 20;
    assert DecimalValue(key[..3]) == 202;
    assert DecimalValue(key) == 2024;
  }

  /** The sections of `declared` for which `isIndexKey` is `wanted`, in declaration order. */
  function KeyedWhere(declared: seq<Bucket>, isIndexKey: Bucket -> bool, wanted: bool): (r: seq<Bucket>)
    ensures forall b :: b in r <==> b in declared && isIndexKey(b) == wanted
  {
    if declared == [] then []
    else
      (if isIndexKey(declared[0]) == wanted then [declared[0]] else [])
      + KeyedWhere(declared[1..], isIndexKey, wanted)
  }

  /**
   * The order in which `Object.entries` yields the keys of an object whose
   * keys were created in `declared` order: array index keys first, in
   * ascending numeric order, then the other keys in creation order. At most
   * one section title is an array index key, so the ascending sort of the
   * first part is the identity here.
   */
  function EntriesOrder(declared: seq<Bucket>): (order: seq<Bucket>)
    ensures forall b :: b in order <==> b in declared
  {
    KeyedWhere(declared, HasIndexKey, true) + KeyedWhere(declared, HasIndexKey, false)
  }

  /** The as-written listing order is the `Object.entries` order of the declared sections. */
  lemma AsWrittenIsEntriesOrder()
    ensures EntriesOrder(DisplayOrder) == DisplayOrderAsWritten
  {
    forall b
      ensures HasIndexKey(b) <==> b == Older
    {
      TitleIndexKey(b);
    }
    SplitByKeys(DisplayOrder, HasIndexKey);
  }

  /**
   * With "2024" the only index key, the declared order splits into it and the rest.
   * The input is fixed by `requires`, so the solver evaluates the literal only where the proof needs it.
   */
  lemma SplitByKeys(d: seq<Bucket>, isIndexKey: Bucket -> bool)
    requires d == [Recent, Yesterday, LastWeek, LastMonth, Older]
    requires forall b :: isIndexKey(b) <==> b == Older
    ensures KeyedWhere(d, isIndexKey, true) + KeyedWhere(d, isIndexKey, false) == DisplayOrderAsWritten
  {
    assert forall k :: 0 <= k < 4 ==> d[k] != Older;
    LastOnlyKeyed(d, isIndexKey);
    assert [d[4]] + d[..4] == DisplayOrderAsWritten;
  }

  /** When only the last section is keyed, it alone comes first and the others keep their order. */
  lemma {:induction false} LastOnlyKeyed(d: seq<Bucket>, isIndexKey: Bucket -> bool)
    requires d != [] && isIndexKey(d[|d| - 1])
    requires forall k :: 0 <= k < |d| - 1 ==> !isIndexKey(d[k])
    ensures KeyedWhere(d, isIndexKey, true) == [d[|d| - 1]]
    ensures KeyedWhere(d, isIndexKey, false) == d[..|d| - 1]
  {
    if |d| == 1 {
      assert d[1..] == [];
    } else {
      LastOnlyKeyed(d[1..], isIndexKey);
      assert d[..|d| - 1] == [d[0]] + d[1..][..|d| - 2];
    }
  }




  /** The sections of `order` that are listed: the non-empty ones, in that order. */
  function Listed(groups: Groups, order: seq<Bucket>): (r: seq<Bucket>)
    ensures forall b :: b in r <==> b in order && groups.Get(b) != []
  {
    if order == [] then []
    else
      var last := order[|order| - 1];
      assert forall b :: b in order <==> b in order[..|order| - 1] || b == last;
      Listed(groups, order[..|order| - 1]) + (if groups.Get(last) != [] then [last] else [])
  }

  predicate RankIncreasing(order: seq<Bucket>) {
    forall j, k :: 0 <= j < k < |order| ==> Rank(order[j]) < Rank(order[k])
  }

  /** Leaving out empty sections keeps the rest in the order given. */
  lemma {:induction false} ListedKeepsRankOrder(groups: Groups, order: seq<Bucket>)
    requires RankIncreasing(order)
    ensures RankIncreasing(Listed(groups, order))
  {
    if order != [] {
      var n := |order| - 1;
      var front := order[..n];
      assert RankIncreasing(front);
      ListedKeepsRankOrder(groups, front);
      forall b | b in Listed(groups, front)
        ensures Rank(b) < Rank(order[n])
      {
        assert b in front;
        var j :| 0 <= j < n && front[j] == b;
      }
    }
  }

  /**
   * With the sections listed newest first, every dated conversation in an
   * earlier listed section is strictly newer than every dated conversation in
   * a later one.
   */
  lemma DisplayNewestFirst(cs: seq<Conversation>, clock: Clock, j: nat, k: nat, x: Conversation, y: Conversation)
    requires clock.startOfYesterday <= clock.startOfToday
    requires j < k < |Listed(GroupsOf(cs, clock), DisplayOrder)|
    requires x in GroupsOf(cs, clock).Get(Listed(GroupsOf(cs, clock), DisplayOrder)[j])
    requires y in GroupsOf(cs, clock).Get(Listed(GroupsOf(cs, clock), DisplayOrder)[k])
    requires x.timestamp.Millis? && y.timestamp.Millis?
    ensures x.timestamp.ms > y.timestamp.ms
  {
    var g := GroupsOf(cs, clock);
    var listed := Listed(g, DisplayOrder);
    DisplayOrderRankIncreasing();
    ListedKeepsRankOrder(g, DisplayOrder);
    assert Rank(listed[j]) < Rank(listed[k]);
    SectionMembers(cs, listed[j], clock);
    SectionMembers(cs, listed[k], clock);
    assert Classify(x.timestamp, clock) == listed[j];
    assert Classify(y.timestamp, clock) == listed[k];
    if x.timestamp.ms <= y.timestamp.ms {
      ClassifyMonotone(y.timestamp.ms, x.timestamp.ms, clock);
      assert false;
    }
  }

  lemma DisplayOrderRankIncreasing()
    ensures RankIncreasing(DisplayOrder)
  {
    assert forall k :: 0 <= k < |DisplayOrder| ==> Rank(DisplayOrder[k]) == k;
  }

  lemma SectionOfPair(a: Conversation, c: Conversation, b: Bucket, clock: Clock)
    ensures Section([a, c], b, clock)
         == (if Classify(a.timestamp, clock) == b then [a] else []) + (if Classify(c.timestamp, clock) == b then [c] else [])
  {
    assert [a, c][..1] == [a] && [a][..0] == [];
    assert Section([a], b, clock) == (if Classify(a.timestamp, clock) == b then [a] else []);
  }

  lemma ListedSnoc(groups: Groups, order: seq<Bucket>, b: Bucket)
    ensures Listed(groups, order + [b]) == Listed(groups, order) + (if groups.Get(b) != [] then [b] else [])
  {
    assert (order + [b])[..|order|] == order;
  }

  /** With only "Récent" and "2024" non-empty, the two orders list those two sections. */
  lemma ListedRecentAndOlder(g: Groups)
    requires g.Get(Recent) != [] && g.Get(Older) != []
    requires g.Get(Yesterday) == [] && g.Get(LastWeek) == [] && g.Get(LastMonth) == []
    ensures Listed(g, DisplayOrderAsWritten) == [Older, Recent]
    ensures Listed(g, DisplayOrder) == [Recent, Older]
  {
    ListedAsWritten(g);
    ListedCorrected(g);
  }

  lemma ListedAsWritten(g: Groups)
    requires g.Get(Recent) != [] && g.Get(Older) != []
    requires g.Get(Yesterday) == [] && g.Get(LastWeek) == [] && g.Get(LastMonth) == []
    ensures Listed(g, DisplayOrderAsWritten) == [Older, Recent]
  {
    ListedAsWrittenFront(g);
    ListedSnoc(g, [Older, Recent, Yesterday], LastWeek);
    assert [Older, Recent, Yesterday] + [LastWeek] == [Older, Recent, Yesterday, LastWeek];
    ListedSnoc(g, [Older, Recent, Yesterday, LastWeek], LastMonth);
    assert [Older, Recent, Yesterday, LastWeek] + [LastMonth] == DisplayOrderAsWritten;
  }

  lemma ListedAsWrittenFront(g: Groups)
    requires g.Get(Recent) != [] && g.Get(Older) != [] && g.Get(Yesterday) == []
    ensures Listed(g, [Older, Recent, Yesterday]) == [Older, Recent]
  {
    ListedSnoc(g, [], Older);
    assert [] + [Older] == [Older];
    ListedSnoc(g, [Older], Recent);
    assert [Older] + [Recent] == [Older, Recent];
    ListedSnoc(g, [Older, Recent], Yesterday);
    assert [Older, Recent] + [Yesterday] == [Older, Recent, Yesterday];
  }

  lemma ListedCorrected(g: Groups)
    requires g.Get(Recent) != [] && g.Get(Older) != []
    requires g.Get(Yesterday) == [] && g.Get(LastWeek) == [] && g.Get(LastMonth) == []
    ensures Listed(g, DisplayOrder) == [Recent, Older]
  {
    ListedCorrectedFront(g);
    ListedSnoc(g, [Recent, Yesterday, LastWeek], LastMonth);
    assert [Recent, Yesterday, LastWeek] + [LastMonth] == [Recent, Yesterday, LastWeek, LastMonth];
    ListedSnoc(g, [Recent, Yesterday, LastWeek, LastMonth], Older);
    assert [Recent, Yesterday, LastWeek, LastMonth] + [Older] == DisplayOrder;
  }

  lemma ListedCorrectedFront(g: Groups)
    requires g.Get(Recent) != [] && g.Get(Yesterday) == [] && g.Get(LastWeek) == []
    ensures Listed(g, [Recent, Yesterday, LastWeek]) == [Recent]
  {
    ListedSnoc(g, [], Recent);
    assert [] + [Recent] == [Recent];
    ListedSnoc(g, [Recent], Yesterday);
    assert [Recent] + [Yesterday] == [Recent, Yesterday];
    ListedSnoc(g, [Recent, Yesterday], LastWeek);
    assert [Recent, Yesterday] + [LastWeek] == [Recent, Yesterday, LastWeek];
  }

  /**
   * As written, the "2024" section is listed first: a conversation 50 days
   * old is listed above one from today.
   * The input is fixed by `requires`, so the solver evaluates the literal only where the proof needs it.
   */
  lemma AsWrittenListsOlderFirst(cs: seq<Conversation>, clock: Clock, today: Conversation, old50: Conversation)
    requires clock == Clock(100 * DayMs, 100 * DayMs, 99 * DayMs)
    requires today == Conversation("a", "today", Millis(100 * DayMs), [])
    requires old50 == Conversation("b", "old", Millis(50 * DayMs), [])
    requires cs == [today, old50]
    ensures Listed(GroupsOf(cs, clock), DisplayOrderAsWritten) == [Older, Recent]
    ensures old50 in GroupsOf(cs, clock).Get(Older) && today in GroupsOf(cs, clock).Get(Recent)
    ensures old50.timestamp.ms < today.timestamp.ms
    ensures Listed(GroupsOf(cs, clock), DisplayOrder) == [Recent, Older]
  {
    assert Classify(today.timestamp, clock) == Recent;
    assert Classify(old50.timestamp, clock) == Older;
    SectionOfPair(today, old50, Recent, clock);
    SectionOfPair(today, old50, Yesterday, clock);
    SectionOfPair(today, old50, LastWeek, clock);
    SectionOfPair(today, old50, LastMonth, clock);
    SectionOfPair(today, old50, Older, clock);
    var g := GroupsOf(cs, clock);
    assert g.Get(Recent) == [today];
    assert g.Get(Yesterday) == [];
    assert g.Get(LastWeek) == [];
    assert g.Get(LastMonth) == [];
    assert g.Get(Older) == [old50];
    ListedRecentAndOlder(g);
  }
}
