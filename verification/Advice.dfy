/**
 Which advice reaches which agent: the server's matcher, the command line's matcher, and the
 subscriptions both start from.
 */
module Advice {
  import opened Wrappers
  import opened Text

  // ----- group prefixes

  predicate IsDigit(c: char) {
    '0' <= c <= '9'
  }

  function DigitRun(s: string): (n: nat)
    ensures n <= |s|
  {
    if s != "" && IsDigit(s[0]) then 1 + DigitRun(s[1..]) else 0
  }

  /** `StripGroupPrefix`: cut off g, one or more digits and a colon. */
  function Strip(tag: string): string {
    if |tag| >= 3 && tag[0] == 'g' then
      var n := DigitRun(tag[1..]);
      if n >= 1 && 1 + n < |tag| && tag[1 + n] == ':' then tag[n + 2..] else tag
    else tag
  }

  lemma {:induction false} DigitRunExact(s: string, n: nat)
    requires n <= |s| && (forall i :: 0 <= i < n ==> IsDigit(s[i])) && (n < |s| ==> !IsDigit(s[n]))
    ensures DigitRun(s) == n
  {
    if n > 0 {
      assert s[0] == s[..n][0];
      DigitRunExact(s[1..], n - 1);
    }
  }

  method StripGroupPrefix(tag: string) returns (r: string)
    ensures r == Strip(tag)
  {
    if |tag| >= 3 && tag[0] == 'g' {
      for i := 1 to |tag|
        invariant forall k :: 1 <= k < i ==> IsDigit(tag[k])
      {
        if tag[i] == ':' && i > 1 {
          DigitRunExact(tag[1..], i - 1);
          return tag[i + 1..];
        }
        if tag[i] < '0' || tag[i] > '9' {
          DigitRunExact(tag[1..], i - 1);
          return tag;
        }
      }
      DigitRunExact(tag[1..], |tag| - 1);
    }
    r := tag;
  }

  function DigitsValue(s: string): nat {
    if s == "" then 0
    else DigitsValue(s[..|s| - 1]) * 10 + (if IsDigit(s[|s| - 1]) then (s[|s| - 1] - '0') as nat else 0)
  }

  /** Blanks before a number; a line break among them is an error. */
  function SkipBlanks(s: string): Option<string> {
    if s == "" then Some("")
    else if s[0] == '\n' then None
    else if IsSpace(s[0]) then SkipBlanks(s[1..])
    else Some(s)
  }

  const MAX_INT: int := 0x7FFF_FFFF_FFFF_FFFF

  /** Scanning "g%d": blanks, a sign and trailing text are all tolerated; the number must fit an int. */
  function ScanGroup(s: string): Option<int> {
    if !("g" <= s) then None
    else
      match SkipBlanks(s[1..])
      case None => None
      case Some(t) =>
        var negative := "-" <= t;
        var u := if negative || "+" <= t then t[1..] else t;
        var n := DigitRun(u);
        if n == 0 then None
        else
          var v := DigitsValue(u[..n]);
          if negative then (if -(v as int) < -MAX_INT - 1 then None else Some(-(v as int)))
          else if v > MAX_INT then None else Some(v)
  }

  /** The group number in front of a label, with what follows the colon. */
  function GroupOf(tag: string): Option<(int, string)> {
    if !("g" <= tag) then None
    else
      match Index(tag, ":")
      case None => None
      case Some(i) =>
        if i <= 1 then None
        else
          match ScanGroup(tag[..i])
          case None => None
          case Some(n) => Some((n, tag[i + 1..]))
  }

  function Content(tag: string): string {
    match GroupOf(tag) case Some((_, rest)) => rest case None => tag
  }

  // ----- groups

  const FIRST_SLOT: int := 1000

  datatype Grouping = Grouping(groups: map<int, seq<string>>, next: int)

  function Slot(groups: map<int, seq<string>>, k: int): seq<string> {
    if k in groups then groups[k] else []
  }

  function AddLabel(g: Grouping, tag: string): Grouping {
    match GroupOf(tag)
    case Some((n, rest)) => g.(groups := g.groups[n := Slot(g.groups, n) + [rest]])
    case None => Grouping(g.groups[g.next := Slot(g.groups, g.next) + [tag]], g.next + 1)
  }

  function Groups(labels: seq<string>): Grouping {
    if labels == [] then Grouping(map[], FIRST_SLOT) else AddLabel(Groups(labels[..|labels| - 1]), labels[|labels| - 1])
  }

  method ParseGroups(labels: seq<string>) returns (groups: map<int, seq<string>>)
    ensures groups == Groups(labels).groups
  {
    groups := map[];
    var nextUnprefixed := FIRST_SLOT;
    for i := 0 to |labels|
      invariant Grouping(groups, nextUnprefixed) == Groups(labels[..i])
    {
      assert labels[..i + 1][..i] == labels[..i];
      var tag := labels[i];
      var prefixed := false;
      if "g" <= tag {
        var idx := Index(tag, ":");
        if idx.Some? && idx.value > 1 {
          var groupNum := ScanGroup(tag[..idx.value]);
          if groupNum.Some? {
            groups := groups[groupNum.value := Slot(groups, groupNum.value) + [tag[idx.value + 1..]]];
            prefixed := true;
          }
        }
      }
      if !prefixed {
        groups := groups[nextUnprefixed := Slot(groups, nextUnprefixed) + [tag]];
        nextUnprefixed := nextUnprefixed + 1;
      }
    }
    assert labels[..|labels|] == labels;
  }

  // ----- matching

  ghost predicate SomeGroupHeld(labels: seq<string>, subs: set<string>) {
    exists k <- Groups(labels).groups :: GroupHeld(Groups(labels).groups, k, subs)
  }

  ghost predicate GroupHeld(groups: map<int, seq<string>>, k: int, subs: set<string>)
    requires k in groups
  {
    groups[k] != [] && forall l <- groups[k] :: l in subs
  }

  /** Whether any of the parsed groups is wholly subscribed, tried in arbitrary order. */
  method AnyGroupHeld(groups: map<int, seq<string>>, subSet: set<string>) returns (r: bool)
    ensures r <==> exists k <- groups :: GroupHeld(groups, k, subSet)
  {
    var rest := groups.Items;
    while rest != {}
      invariant rest <= groups.Items
      invariant forall item <- groups.Items :: item !in rest ==> !GroupHeld(groups, item.0, subSet)
      decreases |rest|
    {
      var item :| item in rest;
      rest := rest - {item};
      var groupLabels := item.1;
      if |groupLabels| == 0 {
        continue;
      }
      var allMatch := true;
      for i := 0 to |groupLabels|
        invariant allMatch <==> forall j :: 0 <= j < i ==> groupLabels[j] in subSet
      {
        if groupLabels[i] !in subSet {
          allMatch := false;
          break;
        }
      }
      if allMatch {
        assert GroupHeld(groups, item.0, subSet);
        return true;
      }
    }
    assert forall k <- groups :: (k, groups[k]) in groups.Items;
    r := false;
  }

  predicate ServerRequires(clean: string) {
    "rig:" <= clean || "agent:" <= clean
  }

  /** Every rig or agent a label names must be subscribed. */
  ghost predicate ServerGuard(labels: seq<string>, subs: set<string>) {
    forall l <- labels :: ServerRequires(Strip(l)) ==> Strip(l) in subs
  }

  ghost predicate ServerMatches(labels: seq<string>, subs: set<string>) {
    ServerGuard(labels, subs) && SomeGroupHeld(labels, subs)
  }

  function ToSet(items: seq<string>): set<string> {
    set s | s in items
  }

  method MatchesSubscriptions(adviceLabels: seq<string>, subscriptions: seq<string>) returns (r: bool)
    ensures r <==> ServerMatches(adviceLabels, ToSet(subscriptions))
  {
    var subSet := ToSet(subscriptions);
    for i := 0 to |adviceLabels|
      invariant forall k :: 0 <= k < i ==> (ServerRequires(Strip(adviceLabels[k])) ==> Strip(adviceLabels[k]) in subSet)
    {
      var clean := StripGroupPrefix(adviceLabels[i]);
      if ("rig:" <= clean && clean !in subSet) || ("agent:" <= clean && clean !in subSet) {
        assert adviceLabels[i] in adviceLabels;
        return false;
      }
    }
    var groups := ParseGroups(adviceLabels);
    r := AnyGroupHeld(groups, subSet);
  }

  // ----- what the groups hold, for every list of labels

  /** The slot a label falls into: its group number, or the next free one from 1000 on. */
  function SlotOf(labels: seq<string>, i: nat): int
    requires i < |labels|
  {
    match GroupOf(labels[i]) case Some((n, _)) => n case None => Groups(labels[..i]).next
  }

  lemma AddedToItsSlot(g: Grouping, tag: string, k: int, x: string)
    ensures x in Slot(AddLabel(g, tag).groups, k) <==>
            || x in Slot(g.groups, k)
            || (k == (match GroupOf(tag) case Some((n, _)) => n case None => g.next) && Content(tag) == x)
  {
    hide GroupOf;
  }

  /** Some label with content `x` falls into slot `k`. */
  ghost predicate InSlot(labels: seq<string>, k: int, x: string) {
    exists i :: 0 <= i < |labels| && SlotOf(labels, i) == k && Content(labels[i]) == x
  }

  lemma SlotIgnoresLater(front: seq<string>, last: string, i: nat)
    requires i < |front|
    ensures SlotOf(front + [last], i) == SlotOf(front, i)
  {
    assert (front + [last])[..i] == front[..i];
  }

  lemma InSlotAppend(front: seq<string>, last: string, k: int, x: string)
    ensures InSlot(front + [last], k, x) <==>
            InSlot(front, k, x) || (SlotOf(front + [last], |front|) == k && Content(last) == x)
  {
    hide SlotOf, Content;
    var labels := front + [last];
    if InSlot(front, k, x) {
      var i :| 0 <= i < |front| && SlotOf(front, i) == k && Content(front[i]) == x;
      SlotIgnoresLater(front, last, i);
      assert labels[i] == front[i];
    }
    if InSlot(labels, k, x) {
      var i :| 0 <= i < |labels| && SlotOf(labels, i) == k && Content(labels[i]) == x;
      if i < |front| {
        SlotIgnoresLater(front, last, i);
        assert labels[i] == front[i];
      }
    }
    assert labels[|front|] == last;
  }

  lemma {:induction false} GroupsBySlot(labels: seq<string>, k: int, x: string)
    ensures x in Slot(Groups(labels).groups, k) <==> InSlot(labels, k, x)
  {
    if labels != [] {
      var front, last := labels[..|labels| - 1], labels[|labels| - 1];
      GroupsBySlot(front, k, x);
      assert labels == front + [last] && labels[..|front|] == front;
      InSlotAppend(front, last, k, x);
      AddedToItsSlot(Groups(front), last, k, x);
      hide GroupOf, InSlot, Content;
      assert Groups(labels) == AddLabel(Groups(front), last);
      assert SlotOf(labels, |front|) == (match GroupOf(last) case Some((n, _)) => n case None => Groups(front).next);
    }
  }

  lemma {:induction false} GroupsNotEmpty(labels: seq<string>)
    ensures forall k <- Groups(labels).groups :: Groups(labels).groups[k] != []
    ensures Groups(labels).next >= FIRST_SLOT
  {
    if labels != [] {
      GroupsNotEmpty(labels[..|labels| - 1]);
      hide GroupOf;
    }
  }

  /** The labels that share a slot with the `i`-th are all subscribed. */
  ghost predicate SlotHeld(labels: seq<string>, i: nat, subs: set<string>)
    requires i < |labels|
  {
    forall j :: 0 <= j < |labels| && SlotOf(labels, j) == SlotOf(labels, i) ==> Content(labels[j]) in subs
  }

  /** Whatever the labels: some group matches exactly when some label's whole slot is subscribed. */
  lemma GroupHeldIffSlotHeld(labels: seq<string>, subs: set<string>)
    ensures SomeGroupHeld(labels, subs) <==> exists i :: 0 <= i < |labels| && SlotHeld(labels, i, subs)
  {
    var groups := Groups(labels).groups;
    GroupsNotEmpty(labels);
    if SomeGroupHeld(labels, subs) {
      var k :| k in groups && GroupHeld(groups, k, subs);
      GroupsBySlot(labels, k, groups[k][0]);
      var i :| 0 <= i < |labels| && SlotOf(labels, i) == k && Content(labels[i]) == groups[k][0];
      forall j | 0 <= j < |labels| && SlotOf(labels, j) == k
        ensures Content(labels[j]) in subs
      {
        GroupsBySlot(labels, k, Content(labels[j]));
      }
      assert SlotHeld(labels, i, subs);
    }
    if i :| 0 <= i < |labels| && SlotHeld(labels, i, subs) {
      var k := SlotOf(labels, i);
      GroupsBySlot(labels, k, Content(labels[i]));
      forall x | x in groups[k]
        ensures x in subs
      {
        GroupsBySlot(labels, k, x);
      }
      assert GroupHeld(groups, k, subs);
    }
  }

  // ----- the documented meaning

  /** Numbers below 1000, and both ways of cutting a prefix agree. */
  predicate Canonical(tag: string) {
    match GroupOf(tag)
    case Some((n, rest)) => n < FIRST_SLOT && Strip(tag) == rest
    case None => Strip(tag) == tag
  }

  predicate SameGroup(a: string, b: string) {
    GroupOf(a).Some? && GroupOf(b).Some? && GroupOf(a).value.0 == GroupOf(b).value.0
  }

  /** AND within a group, OR across groups, a label without prefix being a group of its own. */
  ghost predicate Documented(labels: set<string>, subs: set<string>) {
    && (forall l <- labels :: ServerRequires(Content(l)) ==> Content(l) in subs)
    && exists l <- labels :: GroupSubscribed(labels, l, subs)
  }

  lemma {:induction false} FreeSlotsCountUp(labels: seq<string>, i: nat)
    requires i <= |labels|
    ensures Groups(labels[..i]).next <= Groups(labels).next
    ensures i < |labels| && GroupOf(labels[i]).None? ==> Groups(labels[..i]).next < Groups(labels).next
    decreases |labels|
  {
    hide GroupOf;
    if i == |labels| {
      assert labels[..i] == labels;
    } else {
      var front := labels[..|labels| - 1];
      if i < |front| {
        assert front[..i] == labels[..i];
        FreeSlotsCountUp(front, i);
      }
    }
  }

  lemma SlotsOfUngroupedDiffer(labels: seq<string>, i: nat, j: nat)
    requires i < j < |labels| && GroupOf(labels[i]).None? && GroupOf(labels[j]).None?
    ensures SlotOf(labels, i) < SlotOf(labels, j)
  {
    assert labels[..j][..i] == labels[..i];
    FreeSlotsCountUp(labels[..j], i);
  }

  /** No group number runs into the slots of labels without prefix. */
  ghost predicate Separate(labels: seq<string>) {
    forall i, j :: 0 <= i < |labels| && 0 <= j < |labels| && GroupOf(labels[i]).Some? && GroupOf(labels[j]).None? ==>
      SlotOf(labels, i) != SlotOf(labels, j)
  }

  lemma SlotSharing(labels: seq<string>, i: nat, j: nat)
    requires i < |labels| && j < |labels| && Separate(labels)
    ensures SlotOf(labels, i) == SlotOf(labels, j) <==> i == j || SameGroup(labels[i], labels[j])
  {
    hide GroupOf, Groups;
    if GroupOf(labels[i]).None? && GroupOf(labels[j]).None? {
      if i < j {
        SlotsOfUngroupedDiffer(labels, i, j);
      } else if j < i {
        SlotsOfUngroupedDiffer(labels, j, i);
      }
    }
  }

  /** With separate slots a slot is a documented group. */
  lemma SlotHeldIffGroup(labels: seq<string>, i: nat, subs: set<string>)
    requires i < |labels| && Separate(labels)
    ensures SlotHeld(labels, i, subs) <==>
            Content(labels[i]) in subs && forall m <- labels :: SameGroup(labels[i], m) ==> Content(m) in subs
  {
    hide GroupOf, Separate, SlotOf, Content;
    forall j | 0 <= j < |labels|
      ensures SlotOf(labels, j) == SlotOf(labels, i) <==> i == j || SameGroup(labels[i], labels[j])
    {
      SlotSharing(labels, i, j);
    }
  }

  lemma CanonicalIsSeparate(labels: seq<string>)
    requires forall l <- labels :: Canonical(l)
    ensures Separate(labels)
  {
    forall i, j | 0 <= i < |labels| && 0 <= j < |labels| && GroupOf(labels[i]).Some? && GroupOf(labels[j]).None?
      ensures SlotOf(labels, i) != SlotOf(labels, j)
    {
      hide GroupOf;
      assert Canonical(labels[i]);
      GroupsNotEmpty(labels[..j]);
    }
  }

  /** The `i`-th label's group is wholly subscribed, in the documented sense. */
  ghost predicate GroupSubscribed(labels: set<string>, l: string, subs: set<string>) {
    Content(l) in subs && forall m <- labels :: SameGroup(l, m) ==> Content(m) in subs
  }

  lemma SomeGroupDocumented(labels: seq<string>, subs: set<string>)
    requires Separate(labels)
    ensures SomeGroupHeld(labels, subs) <==> exists l <- ToSet(labels) :: GroupSubscribed(ToSet(labels), l, subs)
  {
    GroupHeldIffSlotHeld(labels, subs);
    forall i | 0 <= i < |labels|
      ensures SlotHeld(labels, i, subs) <==> GroupSubscribed(ToSet(labels), labels[i], subs)
    {
      SlotHeldIffGroup(labels, i, subs);
    }
    hide SlotHeld, SomeGroupHeld, GroupSubscribed;
    if l :| l in ToSet(labels) && GroupSubscribed(ToSet(labels), l, subs) {
      var i :| 0 <= i < |labels| && labels[i] == l;
      assert SlotHeld(labels, i, subs);
    }
    if i :| 0 <= i < |labels| && SlotHeld(labels, i, subs) {
      assert labels[i] in ToSet(labels);
    }
  }

  /** On canonical labels the server's matcher means what is documented. */
  lemma ServerMatchesDocumented(labels: seq<string>, subs: set<string>)
    requires forall l <- labels :: Canonical(l)
    ensures ServerMatches(labels, subs) <==> Documented(ToSet(labels), subs)
  {
    CanonicalIsSeparate(labels);
    SomeGroupDocumented(labels, subs);
    forall l | l in labels
      ensures Strip(l) == Content(l)
    {
      assert Canonical(l);
    }
    hide GroupOf, Separate, SomeGroupHeld, Content, Strip, ServerRequires, SameGroup;
    assert Documented(ToSet(labels), subs) <==>
      ServerGuard(labels, subs) && exists l <- ToSet(labels) :: GroupSubscribed(ToSet(labels), l, subs);
  }

  /** So the order and repetition of labels do not matter. */
  lemma OrderIrrelevant(a: seq<string>, b: seq<string>, subs: set<string>)
    requires (forall l <- a :: Canonical(l)) && ToSet(a) == ToSet(b)
    ensures ServerMatches(a, subs) <==> ServerMatches(b, subs)
  {
    assert forall l <- b :: l in ToSet(a);
    ServerMatchesDocumented(a, subs);
    ServerMatchesDocumented(b, subs);
  }

  /** More subscriptions never lose advice, whatever the labels. */
  lemma ServerMonotone(labels: seq<string>, few: set<string>, many: set<string>)
    requires few <= many && ServerMatches(labels, few)
    ensures ServerMatches(labels, many)
  {
    var k :| k in Groups(labels).groups && GroupHeld(Groups(labels).groups, k, few);
    assert GroupHeld(Groups(labels).groups, k, many);
  }

  /** With an unprefixed rig: or agent: label in the list the guard alone decides. */
  lemma GuardDecides(labels: seq<string>, subs: set<string>, l: string)
    requires (forall m <- labels :: Canonical(m)) && l in labels
    requires GroupOf(l).None? && ServerRequires(l)
    ensures ServerMatches(labels, subs) <==> ServerGuard(labels, subs)
  {
    ServerMatchesDocumented(labels, subs);
    assert Canonical(l);
    hide GroupOf;
    assert Content(l) == l == Strip(l);
    if ServerGuard(labels, subs) {
      assert l in ToSet(labels) && forall m <- ToSet(labels) :: !SameGroup(l, m);
      forall m | m in ToSet(labels) && ServerRequires(Content(m))
        ensures Content(m) in subs
      {
        assert Canonical(m) && Strip(m) == Content(m);
      }
      assert Documented(ToSet(labels), subs);
    }
  }

  // ----- which labels are canonical

  lemma NoColonInDigits(d: string, rest: string)
    requires forall c <- d :: c != ':'
    ensures Index("g" + d + ":" + rest, ":") == Some(|d| + 1)
  {
    var s := "g" + d + ":" + rest;
    assert s[|d| + 1] == ':' && s[|d| + 1..|d| + 2] == ":";
    forall i: nat | i < |d| + 1
      ensures !Occurs(":", s, i)
    {
      assert s[i..i + 1][0] == s[i];
      assert i > 0 ==> s[i] == d[i - 1] && d[i - 1] in d;
    }
    assert Occurs(":", s, |d| + 1);
    IndexIsFirst(s, ":");
  }

  lemma CutAtColon(d: string, rest: string)
    requires d != "" && forall c <- d :: c != ':'
    ensures GroupOf("g" + d + ":" + rest) ==
      match ScanGroup("g" + d) case Some(n) => Some((n, rest)) case None => None
  {
    var s := "g" + d + ":" + rest;
    NoColonInDigits(d, rest);
    assert s[..|d| + 1] == "g" + d && s[|d| + 2..] == rest;
    assert s[0] == 'g';
    hide ScanGroup, Index;
  }

  lemma ScanDigits(d: string)
    requires d != "" && (forall c <- d :: IsDigit(c)) && DigitsValue(d) <= MAX_INT
    ensures ScanGroup("g" + d) == Some(DigitsValue(d))
  {
    var s := "g" + d;
    assert s[1..] == d && s[0] == 'g';
    assert d[0] in d;
    assert SkipBlanks(d) == Some(d);
    assert forall i | 0 <= i < |d| :: d[i] in d;
    DigitRunExact(d, |d|);
    assert d[..|d|] == d;
  }

  lemma {:induction false} DigitsBounded(d: string)
    requires |d| <= 3
    ensures DigitsValue(d) < (if |d| == 0 then 1 else if |d| == 1 then 10 else if |d| == 2 then 100 else 1000)
    decreases |d|
  {
    if d != "" {
      DigitsBounded(d[..|d| - 1]);
    }
  }

  lemma StripDigits(d: string, rest: string)
    requires d != "" && forall c <- d :: IsDigit(c)
    ensures Strip("g" + d + ":" + rest) == rest
  {
    var s := "g" + d + ":" + rest;
    assert s[0] == 'g' && s[1..] == d + ":" + rest && s[|d| + 1] == ':';
    assert forall i | 0 <= i < |d| :: d[i] in d && s[1..][i] == d[i];
    DigitRunExact(s[1..], |d|);
    hide DigitRun;
    assert s[|d| + 2..] == rest;
  }

  /** A prefix of g and digits names the group those digits say, and both cuts agree on it. */
  lemma DigitPrefix(d: string, rest: string)
    requires d != "" && (forall c <- d :: '0' <= c <= '9') && DigitsValue(d) <= 9223372036854775807
    ensures GroupOf("g" + d + ":" + rest) == Some((DigitsValue(d), rest))
    ensures Strip("g" + d + ":" + rest) == rest
  {
    hide GroupOf, ScanGroup, Strip, DigitsValue;
    CutAtColon(d, rest);
    ScanDigits(d);
    StripDigits(d, rest);
  }

  /** So prefixes of one to three digits are canonical, and so is every label that does not start with g. */
  lemma CanonicalLabels(d: string, rest: string)
    requires 1 <= |d| <= 3 && forall c <- d :: '0' <= c <= '9'
    ensures Canonical("g" + d + ":" + rest)
    ensures (rest == "" || rest[0] != 'g') ==> Canonical(rest)
  {
    DigitsBounded(d);
    DigitPrefix(d, rest);
    if rest == "" || rest[0] != 'g' {
      NoPrefixWithoutG(rest);
    }
  }

  // ----- every form of a group number

  /** Blanks without a line break make no difference to what follows. */
  lemma {:induction false} BlanksSkipped(blanks: string, t: string)
    requires forall c <- blanks :: IsSpace(c) && c != '\n'
    ensures SkipBlanks(blanks + t) == SkipBlanks(t)
  {
    hide IsSpace;
    if blanks == "" {
      assert blanks + t == t;
    } else {
      var s := blanks + t;
      assert blanks[0] in blanks && forall c <- blanks[1..] :: c in blanks;
      assert s[0] == blanks[0] && s[1..] == blanks[1..] + t;
      BlanksSkipped(blanks[1..], t);
    }
  }

  lemma DigitsThen(d: string, junk: string)
    requires d != "" && (forall c <- d :: '0' <= c <= '9') && (junk != "" ==> !('0' <= junk[0] <= '9'))
    ensures DigitRun(d + junk) == |d| && (d + junk)[..|d|] == d && (d + junk)[0] == d[0] && '0' <= d[0] <= '9'
  {
    assert forall i | 0 <= i < |d| :: (d + junk)[i] == d[i] && d[i] in d;
    DigitRunExact(d + junk, |d|);
  }

  lemma AfterG(s: string)
    ensures "g" <= "g" + s && ("g" + s)[1..] == s
  {
  }

  lemma AfterSign(sign: string, u: string)
    requires sign in {"", "+", "-"}
    ensures var t := sign + u;
      if sign == "" then t == u else t != "" && t[1..] == u && t[0] == sign[0] && !IsSpace(t[0])
    ensures sign == "+" ==> (sign + u)[0] == '+'
    ensures sign == "-" ==> (sign + u)[0] == '-'
  {
    var t := sign + u;
    if sign == "+" || sign == "-" {
      assert t[0] == sign[0] && t[1..] == u;
    }
  }

  /**
   What counts as a group number after the g: blanks but no line break, a sign or none, and digits; anything
   may follow. Only a number that fits 64 bits counts.
   */
  lemma NumberForms(blanks: string, sign: string, d: string, junk: string)
    requires (forall c <- blanks :: IsSpace(c) && c != '\n') && sign in {"", "+", "-"}
    requires d != "" && (forall c <- d :: '0' <= c <= '9') && (junk != "" ==> !('0' <= junk[0] <= '9'))
    ensures ScanGroup("g" + (blanks + (sign + (d + junk)))) ==
      (if sign == "-" then
         if DigitsValue(d) <= 9223372036854775808 then Some(-(DigitsValue(d) as int)) else None
       else if DigitsValue(d) <= 9223372036854775807 then Some(DigitsValue(d)) else None)
    ensures ScanGroup("g" + (blanks + ("\n" + (sign + (d + junk))))) == None
  {
    var u := d + junk;
    var t := sign + u;
    DigitsThen(d, junk);
    AfterSign(sign, u);
    assert u[0] == d[0] && !IsSpace(u[0]) && u[0] != '+' && u[0] != '-';
    BlanksSkipped(blanks, t);
    BlanksSkipped(blanks, "\n" + t);
    assert SkipBlanks(t) == Some(t) && SkipBlanks("\n" + t) == None;
    AfterG(blanks + t);
    AfterG(blanks + ("\n" + t));
    hide DigitRun, SkipBlanks, DigitsValue, IsSpace;
  }

  /** Without a digit there it is no number, whatever else there is. */
  lemma NoNumber(blanks: string, sign: string, junk: string)
    requires (forall c <- blanks :: IsSpace(c) && c != '\n') && sign in {"", "+", "-"}
    requires junk != "" ==> !IsSpace(junk[0]) && !('0' <= junk[0] <= '9')
    requires sign == "" && junk != "" ==> junk[0] != '+' && junk[0] != '-'
    ensures ScanGroup("g" + (blanks + (sign + junk))) == None
  {
    var t := sign + junk;
    AfterSign(sign, junk);
    BlanksSkipped(blanks, t);
    assert SkipBlanks(t) == Some(t);
    AfterG(blanks + t);
    hide SkipBlanks, DigitsValue;
  }

  // ----- exactly when the documented meaning holds

  /** The rigs and agents the guard reads off the labels. */
  function GuardedValues(labels: seq<string>): set<string> {
    set l | l in labels && ServerRequires(Strip(l)) :: Strip(l)
  }

  /** The rigs and agents the labels really name. */
  function NamedValues(labels: seq<string>): set<string> {
    set l | l in labels && ServerRequires(Content(l)) :: Content(l)
  }

  ghost predicate DocumentedGuard(labels: seq<string>, subs: set<string>) {
    forall l <- labels :: ServerRequires(Content(l)) ==> Content(l) in subs
  }

  lemma GuardsAreInclusions(labels: seq<string>, subs: set<string>)
    ensures ServerGuard(labels, subs) <==> GuardedValues(labels) <= subs
    ensures DocumentedGuard(labels, subs) <==> NamedValues(labels) <= subs
  {
    hide Strip, Content, ServerRequires;
    forall l | l in labels && ServerRequires(Strip(l))
      ensures Strip(l) in GuardedValues(labels)
    {
    }
    forall l | l in labels && ServerRequires(Content(l))
      ensures Content(l) in NamedValues(labels)
    {
    }
  }

  /**
   The guard is the documented one, for all subscriptions, iff both ways of cutting prefixes yield the
   same rigs and agents.
   */
  lemma GuardDocumentedIff(labels: seq<string>)
    ensures GuardedValues(labels) == NamedValues(labels) <==>
            forall subs :: ServerGuard(labels, subs) <==> DocumentedGuard(labels, subs)
  {
    var guarded, named := GuardedValues(labels), NamedValues(labels);
    forall subs: set<string>
      ensures ServerGuard(labels, subs) <==> guarded <= subs
      ensures DocumentedGuard(labels, subs) <==> named <= subs
    {
      GuardsAreInclusions(labels, subs);
    }
    hide ServerGuard, DocumentedGuard, GuardedValues, NamedValues;
    if forall subs :: ServerGuard(labels, subs) <==> DocumentedGuard(labels, subs) {
      assert ServerGuard(labels, guarded) && DocumentedGuard(labels, named);
    }
  }

  /** What has to be subscribed for the `i`-th label's slot. */
  function SlotDemand(labels: seq<string>, i: nat): set<string>
    requires i < |labels|
  {
    set j | 0 <= j < |labels| && SlotOf(labels, j) == SlotOf(labels, i) :: Content(labels[j])
  }

  /** What has to be subscribed for the `i`-th label's group, as documented. */
  function GroupDemand(labels: seq<string>, i: nat): set<string>
    requires i < |labels|
  {
    set j | 0 <= j < |labels| && (j == i || SameGroup(labels[i], labels[j])) :: Content(labels[j])
  }

  function SlotDemands(labels: seq<string>, plus: set<string>): (demands: seq<set<string>>)
    ensures |demands| == |labels| && forall i :: 0 <= i < |labels| ==> demands[i] == plus + SlotDemand(labels, i)
  {
    seq(|labels|, i requires 0 <= i < |labels| => plus + SlotDemand(labels, i))
  }

  function GroupDemands(labels: seq<string>, plus: set<string>): (demands: seq<set<string>>)
    ensures |demands| == |labels| && forall i :: 0 <= i < |labels| ==> demands[i] == plus + GroupDemand(labels, i)
  {
    seq(|labels|, i requires 0 <= i < |labels| => plus + GroupDemand(labels, i))
  }

  ghost predicate SomeDemandMet(demands: seq<set<string>>, subs: set<string>) {
    exists i :: 0 <= i < |demands| && demands[i] <= subs
  }

  /** Every demand of `a` includes one of `b`. */
  ghost predicate Refines(a: seq<set<string>>, b: seq<set<string>>) {
    forall i :: 0 <= i < |a| ==> SomeDemandMet(b, a[i])
  }

  /** Two lists of demands are met by the same subscriptions iff each refines the other. */
  lemma SameDemandsIff(a: seq<set<string>>, b: seq<set<string>>)
    ensures Refines(a, b) && Refines(b, a) <==> forall subs :: SomeDemandMet(a, subs) <==> SomeDemandMet(b, subs)
  {
    if Refines(a, b) && Refines(b, a) {
      forall subs: set<string>
        ensures SomeDemandMet(a, subs) <==> SomeDemandMet(b, subs)
      {
        MetThroughRefinement(a, b, subs);
        MetThroughRefinement(b, a, subs);
      }
    }
    if forall subs :: SomeDemandMet(a, subs) <==> SomeDemandMet(b, subs) {
      forall i | 0 <= i < |a|
        ensures SomeDemandMet(b, a[i])
      {
        assert SomeDemandMet(a, a[i]);
      }
      forall i | 0 <= i < |b|
        ensures SomeDemandMet(a, b[i])
      {
        assert SomeDemandMet(b, b[i]);
      }
    }
  }

  lemma MetThroughRefinement(a: seq<set<string>>, b: seq<set<string>>, subs: set<string>)
    requires Refines(a, b)
    ensures SomeDemandMet(a, subs) ==> SomeDemandMet(b, subs)
  {
    if SomeDemandMet(a, subs) {
      var i :| 0 <= i < |a| && a[i] <= subs;
      assert SomeDemandMet(b, a[i]);
      var j :| 0 <= j < |b| && b[j] <= a[i];
    }
  }

  lemma SlotHeldIsDemand(labels: seq<string>, i: nat, subs: set<string>)
    requires i < |labels|
    ensures SlotHeld(labels, i, subs) <==> SlotDemand(labels, i) <= subs
  {
    hide SlotOf, Content;
    if SlotDemand(labels, i) <= subs {
      forall j | 0 <= j < |labels| && SlotOf(labels, j) == SlotOf(labels, i)
        ensures Content(labels[j]) in subs
      {
        assert Content(labels[j]) in SlotDemand(labels, i);
      }
    }
  }

  lemma GroupSubscribedIsDemand(labels: seq<string>, i: nat, subs: set<string>)
    requires i < |labels|
    ensures GroupSubscribed(ToSet(labels), labels[i], subs) <==> GroupDemand(labels, i) <= subs
  {
    hide Content, SameGroup;
    if GroupDemand(labels, i) <= subs {
      assert Content(labels[i]) in GroupDemand(labels, i);
      forall m | m in ToSet(labels) && SameGroup(labels[i], m)
        ensures Content(m) in subs
      {
        var j :| 0 <= j < |labels| && labels[j] == m;
        assert Content(labels[j]) in GroupDemand(labels, i);
      }
    }
    if GroupSubscribed(ToSet(labels), labels[i], subs) {
      assert forall j :: 0 <= j < |labels| ==> labels[j] in ToSet(labels);
    }
  }

  /** The server needs the guarded values and some slot. */
  lemma ServerDemands(labels: seq<string>, subs: set<string>)
    ensures SomeGroupHeld(labels, subs) <==> SomeDemandMet(SlotDemands(labels, {}), subs)
    ensures ServerMatches(labels, subs) <==> SomeDemandMet(SlotDemands(labels, GuardedValues(labels)), subs)
  {
    GuardsAreInclusions(labels, subs);
    GroupHeldIffSlotHeld(labels, subs);
    var guarded := GuardedValues(labels);
    forall i | 0 <= i < |labels|
      ensures SlotHeld(labels, i, subs) <==> SlotDemands(labels, {})[i] <= subs
      ensures SlotHeld(labels, i, subs) && guarded <= subs <==> SlotDemands(labels, guarded)[i] <= subs
    {
      SlotHeldIsDemand(labels, i, subs);
      PlusWithin(guarded, SlotDemand(labels, i), subs);
      PlusWithin({}, SlotDemand(labels, i), subs);
    }
    hide SlotHeld, SomeGroupHeld, ServerGuard, SlotDemands, GuardedValues;
  }

  lemma PlusWithin(a: set<string>, b: set<string>, subs: set<string>)
    ensures a + b <= subs <==> a <= subs && b <= subs
  {
    if a + b <= subs {
      assert a <= a + b && b <= a + b;
    }
  }

  ghost predicate SomeGroupSubscribed(labels: set<string>, subs: set<string>) {
    exists l <- labels :: GroupSubscribed(labels, l, subs)
  }

  lemma DocumentedInParts(labels: seq<string>, subs: set<string>)
    ensures Documented(ToSet(labels), subs) <==>
        DocumentedGuard(labels, subs) && SomeGroupSubscribed(ToSet(labels), subs)
    ensures SomeGroupSubscribed(ToSet(labels), subs) <==>
            exists i :: 0 <= i < |labels| && GroupSubscribed(ToSet(labels), labels[i], subs)
  {
    hide GroupSubscribed, Content, ServerRequires;
    if l :| l in ToSet(labels) && GroupSubscribed(ToSet(labels), l, subs) {
      var i :| 0 <= i < |labels| && labels[i] == l;
    }
    if i :| 0 <= i < |labels| && GroupSubscribed(ToSet(labels), labels[i], subs) {
      assert labels[i] in ToSet(labels);
    }
  }

  /** The documentation asks for the named values and some group. */
  lemma DocumentedDemands(labels: seq<string>, subs: set<string>)
    ensures SomeGroupSubscribed(ToSet(labels), subs) <==> SomeDemandMet(GroupDemands(labels, {}), subs)
    ensures Documented(ToSet(labels), subs) <==> SomeDemandMet(GroupDemands(labels, NamedValues(labels)), subs)
  {
    GuardsAreInclusions(labels, subs);
    DocumentedInParts(labels, subs);
    var named := NamedValues(labels);
    hide GroupSubscribed, DocumentedGuard, NamedValues, Documented, GroupDemand, SomeGroupSubscribed;
    forall i | 0 <= i < |labels|
      ensures GroupSubscribed(ToSet(labels), labels[i], subs) <==> GroupDemands(labels, {})[i] <= subs
      ensures GroupSubscribed(ToSet(labels), labels[i], subs) && named <= subs <==>
          GroupDemands(labels, named)[i] <= subs
    {
      GroupSubscribedIsDemand(labels, i, subs);
      PlusWithin(named, GroupDemand(labels, i), subs);
      PlusWithin({}, GroupDemand(labels, i), subs);
    }
    hide GroupDemands;
  }

  /**
   AND within groups and OR across them holds, for all subscriptions, iff every group's contents
   include those of some slot and every slot's include those of some group.
   */
  lemma GroupsDocumentedIff(labels: seq<string>)
    ensures var slots, groups := SlotDemands(labels, {}), GroupDemands(labels, {});
      Refines(slots, groups) && Refines(groups, slots) <==>
        forall subs :: SomeGroupHeld(labels, subs) <==> SomeGroupSubscribed(ToSet(labels), subs)
  {
    forall subs: set<string>
      ensures SomeGroupHeld(labels, subs) <==> SomeDemandMet(SlotDemands(labels, {}), subs)
      ensures SomeGroupSubscribed(ToSet(labels), subs) <==> SomeDemandMet(GroupDemands(labels, {}), subs)
    {
      ServerDemands(labels, subs);
      DocumentedDemands(labels, subs);
    }
    SameDemandsIff(SlotDemands(labels, {}), GroupDemands(labels, {}));
    hide SomeGroupHeld, SlotDemands, GroupDemands, Refines, SomeGroupSubscribed;
  }

  /** The whole matcher means what is documented, for all subscriptions, exactly when the two ask for the same. */
  lemma MatcherDocumentedIff(labels: seq<string>)
    ensures var asked, documented :=
        SlotDemands(labels, GuardedValues(labels)), GroupDemands(labels, NamedValues(labels));
      Refines(asked, documented) && Refines(documented, asked) <==>
        forall subs :: ServerMatches(labels, subs) <==> Documented(ToSet(labels), subs)
  {
    var asked, documented := SlotDemands(labels, GuardedValues(labels)), GroupDemands(labels, NamedValues(labels));
    forall subs: set<string>
      ensures ServerMatches(labels, subs) <==> SomeDemandMet(asked, subs)
      ensures Documented(ToSet(labels), subs) <==> SomeDemandMet(documented, subs)
    {
      ServerDemands(labels, subs);
      DocumentedDemands(labels, subs);
    }
    SameDemandsIff(asked, documented);
    hide ServerMatches, SlotDemands, GroupDemands, Refines, Documented, GuardedValues, NamedValues;
  }

  /** A grouped and a plain label: two groups, unless the number is that of the first free slot. */
  lemma GroupedAndPlain(a: string, b: string, n: int, x: string, subs: set<string>)
    requires GroupOf(a) == Some((n, x)) && GroupOf(b).None?
    ensures SomeGroupHeld([a, b], subs) <==> if n == FIRST_SLOT then x in subs && b in subs else x in subs || b in subs
    ensures Separate([a, b]) <==> n != FIRST_SLOT
  {
    hide GroupOf;
    var labels := [a, b];
    assert labels[..0] == [] && labels[..1] == [a] && [a][..0] == [];
    assert Groups([a]).next == FIRST_SLOT;
    assert SlotOf(labels, 0) == n && SlotOf(labels, 1) == FIRST_SLOT;
    GroupHeldIffSlotHeld(labels, subs);
    assert Content(labels[0]) == x && Content(labels[1]) == b;
    hide SlotOf, Content;
    assert SlotHeld(labels, 0, subs) <==> x in subs && (n == FIRST_SLOT ==> b in subs);
    assert SlotHeld(labels, 1, subs) <==> b in subs && (n == FIRST_SLOT ==> x in subs);
  }

  /** A signed number is a group to the parser but no prefix to the guard, which then sees no rig at all. */
  lemma SignedPrefixEscapesGuard(x: string, subs: set<string>)
    requires "global" in subs && "rig:" + x !in subs
    ensures var tag := "g+1:" + ("rig:" + x);
      Content(tag) == "rig:" + x && ServerMatches([tag, "global"], subs) && !Documented({tag, "global"}, subs)
  {
    var rig := "rig:" + x;
    var tag := "g+1:" + rig;
    SignedPrefix(rig);
    GlobalIsPlain();
    assert tag[0] == 'g' && "global"[0] == 'g' && "rig:" <= rig;
    GroupedAndPlain(tag, "global", 1, rig, subs);
    hide GroupOf, Strip, SomeGroupHeld, GroupSubscribed;
    assert ServerGuard([tag, "global"], subs);
    assert tag in {tag, "global"} && ServerRequires(Content(tag));
  }

  lemma SignedPrefix(rest: string)
    ensures GroupOf("g+1:" + rest) == Some((1, rest)) && Strip("g+1:" + rest) == "g+1:" + rest
  {
    var s := "g+1:" + rest;
    CutAtColon("+1", rest);
    assert "g" + "+1" + ":" + rest == s;
    assert "g+1"[1..] == "+1" && "+1"[1..] == "1";
    assert SkipBlanks("+1") == Some("+1");
    DigitRunExact("1", 1);
    assert "1"[..1] == "1" && "1"[..0] == "";
    assert DigitsValue("1") == 1;
    assert "g" + "+1" == "g+1";
    assert s[1] == '+' && s[1..][0] == '+';
  }

  /** Number 1000 is also the first free slot: one group then holds both labels, and OR becomes AND. */
  lemma ThousandCollides(a: string, b: string, x: string)
    requires GroupOf(a) == Some((1000, x)) && GroupOf(b).None? && x != b
    requires !ServerRequires(x) && !ServerRequires(b)
    ensures !Separate([a, b]) && !ServerMatches([a, b], {b}) && Documented(ToSet([a, b]), {b})
  {
    GroupedAndPlain(a, b, FIRST_SLOT, x, {b});
    hide SomeGroupHeld, Strip, GroupOf, ServerRequires;
    var both := ToSet([a, b]);
    assert both == {a, b};
    assert Content(a) == x && Content(b) == b && !SameGroup(b, a) && !SameGroup(b, b);
    hide Content, SameGroup;
    assert GroupSubscribed(both, b, {b});
  }

  /** Such a label is easy to write. */
  lemma ThousandIsGroup()
    ensures GroupOf("g1000:a") == Some((1000, "a"))
  {
    hide GroupOf, ScanGroup, Strip, DigitsValue;
    ThousandInDigits();
    var d := "1000";
    DigitPrefix(d, "a");
    assert "g" + d + ":" + "a" == "g1000:a";
  }

  lemma ThousandInDigits()
    ensures DigitsValue("1000") == 1000
  {
    assert "1000"[..3] == "100" && "100"[..2] == "10" && "10"[..1] == "1" && "1"[..0] == "";
    assert DigitsValue("1") == 1 && DigitsValue("10") == 10 && DigitsValue("100") == 100;
  }

  // ----- the command line's matcher

  ghost predicate CliGuard(labels: seq<string>, subs: set<string>) {
    forall l <- labels :: CliAllows(Strip(l), subs)
  }

  predicate CliAllows(clean: string, subs: set<string>) {
    && ("project:" <= clean ==> clean in subs || "rig:" + clean[8..] in subs)
    && ("rig:" <= clean ==> clean in subs || "project:" + clean[4..] in subs)
    && ("agent:" <= clean ==> clean in subs)
  }

  ghost predicate CliMatches(labels: seq<string>, subs: set<string>) {
    CliGuard(labels, subs) && SomeGroupHeld(labels, subs)
  }

  method AllowedOnCommandLine(clean: string, subSet: set<string>) returns (r: bool)
    ensures r == CliAllows(clean, subSet)
  {
    if "project:" <= clean && clean !in subSet {
      var rigEquiv := "rig:" + clean[8..];
      if rigEquiv !in subSet {
        return false;
      }
    }
    if "rig:" <= clean && clean !in subSet {
      var projEquiv := "project:" + clean[4..];
      if projEquiv !in subSet {
        return false;
      }
    }
    if "agent:" <= clean && clean !in subSet {
      return false;
    }
    r := true;
  }

  method MatchesOnCommandLine(adviceLabels: seq<string>, subSet: set<string>) returns (r: bool)
    ensures r <==> CliMatches(adviceLabels, subSet)
  {
    hide CliAllows, Strip;
    for i := 0 to |adviceLabels|
      invariant forall k :: 0 <= k < i ==> CliAllows(Strip(adviceLabels[k]), subSet)
    {
      var clean := StripGroupPrefix(adviceLabels[i]);
      var allowed := AllowedOnCommandLine(clean, subSet);
      if !allowed {
        assert adviceLabels[i] in adviceLabels;
        return false;
      }
    }
    var groups := ParseGroups(adviceLabels);
    r := AnyGroupHeld(groups, subSet);
  }

  /** Every project subscribed to comes with its rig. */
  ghost predicate RigClosed(subs: set<string>) {
    forall s <- subs :: "project:" <= s ==> "rig:" + s[8..] in subs
  }

  predicate NamesProject(tag: string) {
    "project:" <= Strip(tag)
  }

  /** Every project a label names is subscribed, or its rig is. */
  ghost predicate ProjectsHeld(labels: seq<string>, subs: set<string>) {
    forall l <- labels :: ProjectHeld(l, subs)
  }

  predicate ProjectHeld(tag: string, subs: set<string>) {
    NamesProject(tag) ==> Strip(tag) in subs || "rig:" + Strip(tag)[8..] in subs
  }

  /** What the command line allows of one label, against what the server requires of it. */
  lemma CliAllowsExactly(clean: string, subs: set<string>)
    ensures CliAllows(clean, subs) ==> ("project:" <= clean ==> clean in subs || "rig:" + clean[8..] in subs)
    ensures RigClosed(subs) ==>
              (CliAllows(clean, subs) <==> (ServerRequires(clean) ==> clean in subs)
                                           && ("project:" <= clean ==> clean in subs || "rig:" + clean[8..] in subs))
  {
    if RigClosed(subs) && "rig:" <= clean {
      assert clean == "rig:" + clean[4..];
      assert clean[0] == 'r';
      assert ("project:" + clean[4..])[8..] == clean[4..];
      assert "project:" <= "project:" + clean[4..];
    }
  }

  /**
   With every project's rig subscribed the command line delivers exactly the advice the server delivers,
   less that which names a project the agent has neither as project nor as rig.
   */
  lemma CliMatchesIff(labels: seq<string>, subs: set<string>)
    ensures CliMatches(labels, subs) ==> ProjectsHeld(labels, subs)
    ensures RigClosed(subs) ==>
              (CliMatches(labels, subs) <==> ServerMatches(labels, subs) && ProjectsHeld(labels, subs))
    ensures RigClosed(subs) ==>
              ((CliMatches(labels, subs) <==> ServerMatches(labels, subs)) <==>
               (ServerMatches(labels, subs) ==> ProjectsHeld(labels, subs)))
  {
    hide Strip, CliAllows, ServerRequires, RigClosed;
    forall l | l in labels
      ensures CliAllows(Strip(l), subs) ==> ProjectHeld(l, subs)
      ensures RigClosed(subs) ==>
                (CliAllows(Strip(l), subs) <==> (ServerRequires(Strip(l)) ==> Strip(l) in subs) && ProjectHeld(l, subs))
    {
      CliAllowsExactly(Strip(l), subs);
    }
    hide SomeGroupHeld, ProjectHeld;
  }

  /**
   The two matchers agree on all labels that name no project, for any subscriptions that include
   "global", exactly when every subscribed project comes with its rig.
   */
  lemma MatchersAgreeIff(subs: set<string>)
    requires "global" in subs
    ensures RigClosed(subs) <==>
      forall labels: seq<string> :: (forall l <- labels :: !NamesProject(l)) ==>
        (CliMatches(labels, subs) <==> ServerMatches(labels, subs))
  {
    if RigClosed(subs) {
      forall labels: seq<string> | forall l <- labels :: !NamesProject(l)
        ensures CliMatches(labels, subs) <==> ServerMatches(labels, subs)
      {
        CliMatchesIff(labels, subs);
      }
    } else {
      var s :| s in subs && "project:" <= s && "rig:" + s[8..] !in subs;
      assert s == "project:" + s[8..];
      DisagreeOnRig(s[8..], subs);
      var labels := ["rig:" + s[8..], "global"];
      assert forall l <- labels :: !NamesProject(l);
    }
  }

  lemma DisagreeOnRig(x: string, subs: set<string>)
    requires "global" in subs && "project:" + x in subs && "rig:" + x !in subs
    ensures var labels := ["rig:" + x, "global"];
      CliMatches(labels, subs) && !ServerMatches(labels, subs) && forall l <- labels :: !NamesProject(l)
  {
    var labels := ["rig:" + x, "global"];
    var rig := "rig:" + x;
    assert rig[0] == 'r' && rig[4..] == x && "rig:" <= rig;
    assert Strip(rig) == rig;
    GlobalIsPlain();
    assert labels[0] in labels && labels[1] in labels;
    assert "global"[0] == 'g' && rig[0] == 'r';
    hide Strip, GroupOf;
    GroupHeldIffSlotHeld(labels, subs);
    assert GroupOf(rig).None? by { NoPrefixWithoutG(rig); }
    SlotsOfUngroupedDiffer(labels, 0, 1);
    assert SlotHeld(labels, 1, subs);
  }

  lemma NoPrefixWithoutG(tag: string)
    requires tag == "" || tag[0] != 'g'
    ensures GroupOf(tag).None? && Strip(tag) == tag && Canonical(tag)
  {
  }

  lemma GlobalIsPlain()
    ensures GroupOf("global").None? && Strip("global") == "global" && Canonical("global")
  {
    var s := "global";
    forall i: nat
      ensures !Occurs(":", s, i)
    {
      assert i < |s| ==> s[i..i + 1] == [s[i]];
    }
    IndexIsFirst(s, ":");
    assert s[1..][0] == 'l';
  }

  // ----- subscriptions

  function Singular(plural: string): string {
    if plural != "" && plural[|plural| - 1] == 's' then plural[..|plural| - 1] else plural
  }

  function RoleSubs(role: string): seq<string> {
    ["role:" + role] + (if Singular(role) != role then ["role:" + Singular(role)] else [])
  }

  /** The command line's subscriptions, from the agent, project and role of its environment. */
  function CliSubscriptions(agent: string, project: string, role: string): seq<string> {
    ["global"]
    + (if agent != "" then ["agent:" + agent] else [])
    + (if project != "" then ["project:" + project, "rig:" + project] else [])
    + (if role != "" then RoleSubs(role) else [])
  }

  method BuildCliSubscriptions(agent: string, project: string, role: string) returns (subs: seq<string>)
    ensures subs == CliSubscriptions(agent, project, role)
  {
    subs := ["global"];
    if agent != "" {
      subs := subs + ["agent:" + agent];
    }
    if project != "" {
      subs := subs + ["project:" + project];
      subs := subs + ["rig:" + project];
    }
    if role != "" {
      subs := subs + ["role:" + role];
      var singular := Singular(role);
      if singular != role {
        subs := subs + ["role:" + singular];
      }
    }
  }

  /** What is subscribed: everyone, and the agent, project with its rig, and role with its singular that are set. */
  lemma CliSubscribesTo(agent: string, project: string, role: string)
    ensures forall x :: x in CliSubscriptions(agent, project, role) <==>
      || x == "global" || (agent != "" && x == "agent:" + agent)
      || (project != "" && x in {"project:" + project, "rig:" + project})
      || (role != "" && (x == "role:" + role || (role[|role| - 1] == 's' && x == "role:" + role[..|role| - 1])))
  {
  }

  /** Whatever the environment says, the command line subscribes to the rig of its project. */
  lemma CliSubscriptionsRigClosed(agent: string, project: string, role: string)
    ensures RigClosed(ToSet(CliSubscriptions(agent, project, role)))
        && "global" in CliSubscriptions(agent, project, role)
  {
    var subs := CliSubscriptions(agent, project, role);
    assert subs[0] == "global";
    forall s | s in subs && "project:" <= s
      ensures "rig:" + s[8..] in subs
    {
      NoProjectElsewhere(s, agent, role);
      assert ("project:" + project)[8..] == project;
    }
  }

  lemma NoProjectElsewhere(s: string, agent: string, role: string)
    requires "project:" <= s
    ensures s != "global" && s != "agent:" + agent && s !in RoleSubs(role)
    ensures forall x: string :: s != "rig:" + x
  {
    assert s[0] == 'p' && "global"[0] == 'g' && ("agent:" + agent)[0] == 'a';
    assert ("role:" + role)[0] == 'r' && ("role:" + Singular(role))[0] == 'r';
    assert forall x: string :: ("rig:" + x)[0] == 'r';
  }

  /** Hence both matchers agree for an agent on all advice that names no project. */
  lemma AgentsSeeTheSame(agent: string, project: string, role: string, labels: seq<string>)
    requires forall l <- labels :: !NamesProject(l)
    ensures var subs := ToSet(CliSubscriptions(agent, project, role));
      CliMatches(labels, subs) <==> ServerMatches(labels, subs)
  {
    CliSubscriptionsRigClosed(agent, project, role);
    CliMatchesIff(labels, ToSet(CliSubscriptions(agent, project, role)));
  }

  /** On a label of a project that is not subscribed they differ: only the command line insists on it. */
  lemma ProjectLabelsDiffer(x: string, subs: set<string>)
    requires "global" in subs && "project:" + x !in subs && "rig:" + x !in subs
    ensures var labels := ["project:" + x, "global"];
      ServerMatches(labels, subs) && !CliMatches(labels, subs)
  {
    var p := "project:" + x;
    var labels := [p, "global"];
    assert p[0] == 'p' && p[8..] == x && "project:" <= p;
    GlobalIsPlain();
    NoPrefixWithoutG(p);
    hide GroupOf, Strip;
    assert labels[0] in labels && labels[1] in labels && "global"[0] == 'g';
    GroupHeldIffSlotHeld(labels, subs);
    SlotsOfUngroupedDiffer(labels, 0, 1);
    assert SlotHeld(labels, 1, subs);
    CliMatchesIff(labels, subs);
  }

  // ----- advice that becomes relevant when a bead is claimed

  predicate IsTargeting(tag: string) {
    var clean := Strip(tag);
    clean == "global" || "project:" <= clean || "rig:" <= clean || "role:" <= clean || "agent:" <= clean
  }

  function TargetingLabels(labels: seq<string>): seq<string> {
    if labels == [] then []
    else
      var front, last := labels[..|labels| - 1], labels[|labels| - 1];
      TargetingLabels(front) + (if IsTargeting(last) then [last] else [])
  }

  /** A claimed bead adds to the subscriptions those of its labels that name everyone, a project, rig, role or agent. */
  lemma {:induction false} ClaimAdds(base: seq<string>, claimed: seq<string>)
    ensures forall x :: x in ToSet(base + TargetingLabels(claimed)) <==>
      || x in base
      || (x in claimed && Strip(x) == "global")
      || (x in claimed && ("project:" <= Strip(x) || "rig:" <= Strip(x) || "role:" <= Strip(x) || "agent:" <= Strip(x)))
  {
    hide Strip;
    if claimed != [] {
      ClaimAdds(base, claimed[..|claimed| - 1]);
      assert claimed == claimed[..|claimed| - 1] + [claimed[|claimed| - 1]];
    }
  }

  /** Indices of the advice that matches with the claimed bead's labels but not without. */
  ghost function NewlyRelevant(advice: seq<seq<string>>, base: set<string>, enriched: set<string>): seq<nat> {
    if advice == [] then []
    else
      var n := |advice| - 1;
      NewlyRelevant(advice[..n], base, enriched)
      + (if CliMatches(advice[n], enriched) && !CliMatches(advice[n], base) then [n] else [])
  }

  method AdviceDiff(base: seq<string>, claimed: seq<string>, advice: seq<seq<string>>) returns (diff: seq<nat>)
    ensures diff == NewlyRelevant(advice, ToSet(base), ToSet(base + TargetingLabels(claimed)))
  {
    hide CliMatches, Strip;
    var enriched := base;
    for i := 0 to |claimed|
      invariant enriched == base + TargetingLabels(claimed[..i])
    {
      assert claimed[..i + 1][..i] == claimed[..i];
      if IsTargeting(claimed[i]) {
        enriched := enriched + [claimed[i]];
      }
    }
    assert claimed[..|claimed|] == claimed;
    var baseSet, enrichedSet := ToSet(base), ToSet(enriched);
    diff := [];
    if |enriched| == |base| {
      assert enriched == base;
      NothingNew(advice, baseSet);
      return;
    }
    for i := 0 to |advice|
      invariant diff == NewlyRelevant(advice[..i], baseSet, enrichedSet)
    {
      assert advice[..i + 1][..i] == advice[..i];
      var matchesEnriched := MatchesOnCommandLine(advice[i], enrichedSet);
      var matchesBase := MatchesOnCommandLine(advice[i], baseSet);
      if matchesEnriched && !matchesBase {
        diff := diff + [i];
      }
    }
    assert advice[..|advice|] == advice;
  }

  lemma {:induction false} NothingNew(advice: seq<seq<string>>, base: set<string>)
    ensures NewlyRelevant(advice, base, base) == []
  {
    if advice != [] {
      NothingNew(advice[..|advice| - 1], base);
    }
  }

  lemma CliMonotone(labels: seq<string>, few: set<string>, many: set<string>)
    requires few <= many && CliMatches(labels, few)
    ensures CliMatches(labels, many)
  {
    hide Strip;
    var k :| k in Groups(labels).groups && GroupHeld(Groups(labels).groups, k, few);
    assert GroupHeld(Groups(labels).groups, k, many);
  }

  /** Claiming a bead loses no advice: what matches afterwards is what matched before plus the diff. */
  lemma {:induction false} DiffIsExactlyTheGain(advice: seq<seq<string>>, base: set<string>, enriched: set<string>,
                                                i: nat)
    requires base <= enriched && i < |advice|
    ensures i in NewlyRelevant(advice, base, enriched) <==>
        CliMatches(advice[i], enriched) && !CliMatches(advice[i], base)
    ensures CliMatches(advice[i], enriched) <==>
        CliMatches(advice[i], base) || i in NewlyRelevant(advice, base, enriched)
  {
    hide CliMatches;
    var n := |advice| - 1;
    DiffOnceInOrder(advice[..n], base, enriched);
    if i < n {
      DiffIsExactlyTheGain(advice[..n], base, enriched, i);
    }
    if CliMatches(advice[i], base) {
      CliMonotone(advice[i], base, enriched);
    }
  }

  ghost predicate Increasing(places: seq<nat>) {
    forall j, k :: 0 <= j < k < |places| ==> places[j] < places[k]
  }

  /** The diff lists each piece of advice once, in the order given. */
  lemma {:induction false} DiffOnceInOrder(advice: seq<seq<string>>, base: set<string>, enriched: set<string>)
    ensures forall k <- NewlyRelevant(advice, base, enriched) :: k < |advice|
    ensures Increasing(NewlyRelevant(advice, base, enriched))
  {
    hide CliMatches;
    if advice != [] {
      var n := |advice| - 1;
      DiffOnceInOrder(advice[..n], base, enriched);
      var diff, all := NewlyRelevant(advice[..n], base, enriched), NewlyRelevant(advice, base, enriched);
      assert all == diff || all == diff + [n];
      forall j | 0 <= j < |diff|
        ensures diff[j] < n
      {
        assert diff[j] in diff;
      }
    }
  }
}
