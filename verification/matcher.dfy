/** Trace abstraction: the backtracking search for role tuples that match a summary rule. */
module Matcher {
  import opened Common
  import opened Enumeration
  import opened Expressions

  /** A concrete event of a trace. */
  datatype Source = Source(id: Id, eventType: string, cycle: Option<int>, fields: map<string, Value>)

  datatype Pattern = Variable(name: string) | Exactly(value: Value)

  /** Field patterns are read in their order. */
  datatype RolePattern = RolePattern(name: string, eventType: string, fields: seq<(string, Pattern)>)

  datatype SummaryRule = SummaryRule(roles: seq<RolePattern>, ordered: bool, strictOrder: bool, distinctEvents: bool)

  type Values = map<string, Value>

  datatype Match = Match(selected: map<string, Source>, bindings: Values)

  function RoleNames(roles: seq<RolePattern>): (names: seq<string>)
    ensures |names| == |roles| && forall k :: 0 <= k < |roles| ==> names[k] == roles[k].name
  {
    seq(|roles|, k requires 0 <= k < |roles| => roles[k].name)
  }

  predicate ValidRule(rule: SummaryRule) {
    rule.roles != [] && NoDup(RoleNames(rule.roles))
  }

  // ----- What a match is

  /** The field has the value that the pattern demands under the bindings. */
  predicate FieldMatches(field: (string, Pattern), event: Source, b: Values) {
    && field.0 in event.fields
    && match field.1
       case Variable(x) => x in b && b[x] == event.fields[field.0]
       case Exactly(v) => event.fields[field.0] == v
  }

  predicate RoleMatches(role: RolePattern, event: Source, b: Values) {
    event.eventType == role.eventType && forall f | f in role.fields :: FieldMatches(f, event, b)
  }

  /** One consistent binding explains every role of the tuple. */
  ghost predicate Explains(rule: SummaryRule, t: seq<Source>, b: Values)
    requires |t| <= |rule.roles|
  {
    forall k :: 0 <= k < |t| ==> RoleMatches(rule.roles[k], t[k], b)
  }

  /** The events come from the trace, and are distinct and ordered where the rule asks for it. */
  ghost predicate Shape(rule: SummaryRule, events: map<string, seq<Source>>, t: seq<Source>)
    requires |t| <= |rule.roles|
  {
    && (forall k :: 0 <= k < |t| ==>
          rule.roles[k].eventType in events && t[k] in events[rule.roles[k].eventType])
    && (rule.distinctEvents ==> forall j, k :: 0 <= j < k < |t| ==> t[j].id != t[k].id)
    && (rule.ordered ==> forall k :: 0 < k < |t| && t[k - 1].cycle.Some? && t[k].cycle.Some? ==>
          && t[k - 1].cycle.value <= t[k].cycle.value
          && (rule.strictOrder ==> t[k - 1].cycle.value < t[k].cycle.value))
  }

  // The candidate events of a type, in the order of the trace.
  function Candidates(events: map<string, seq<Source>>, eventType: string): seq<Source> {
    if eventType in events then events[eventType] else []
  }

  /** Some field of the tuple's roles binds the variable. */
  ghost predicate Binds(rule: SummaryRule, n: nat, x: string)
    requires n <= |rule.roles|
  {
    exists k, f :: 0 <= k < n && f in rule.roles[k].fields && f.1 == Variable(x)
  }

  /** The binding explains the tuple and binds only its variables. */
  ghost predicate LeastBinding(rule: SummaryRule, t: seq<Source>, b: Values)
    requires |t| <= |rule.roles|
  {
    Explains(rule, t, b) && forall x :: x in b ==> Binds(rule, |t|, x)
  }

  ghost predicate Extends(a: Values, b: Values) {
    forall x :: x in a ==> x in b && b[x] == a[x]
  }

  /** Every binding that explains the tuple contains the least one. */
  lemma LeastIsLeast(rule: SummaryRule, t: seq<Source>, b: Values, other: Values)
    requires |t| <= |rule.roles| && LeastBinding(rule, t, b) && Explains(rule, t, other)
    ensures Extends(b, other)
  {
    forall x | x in b ensures x in other && other[x] == b[x] {
      var k, f :| 0 <= k < |t| && f in rule.roles[k].fields && f.1 == Variable(x);
      assert RoleMatches(rule.roles[k], t[k], b) && RoleMatches(rule.roles[k], t[k], other);
      assert FieldMatches(f, t[k], b) && FieldMatches(f, t[k], other);
    }
  }

  /** The tuples of the rule: complete, well-shaped, and explained by one binding. */
  ghost predicate IsMatch(rule: SummaryRule, events: map<string, seq<Source>>, t: seq<Source>) {
    |t| == |rule.roles| && Shape(rule, events, t) && exists b :: Explains(rule, t, b)
  }

  /** `m` reports the tuple and its least binding. */
  ghost predicate Reports(rule: SummaryRule, t: seq<Source>, m: Match) {
    |t| == |rule.roles| && m.selected == Zip(RoleNames(rule.roles), t) && LeastBinding(rule, t, m.bindings)
  }

  lemma ReportsOnce(rule: SummaryRule, t: seq<Source>, u: seq<Source>, m: Match)
    requires ValidRule(rule) && Reports(rule, t, m) && Reports(rule, u, m)
    ensures t == u
  {
    ZipInjective(RoleNames(rule.roles), t, u);
  }

  lemma OneReport(rule: SummaryRule, t: seq<Source>, m: Match, n: Match)
    requires Reports(rule, t, m) && Reports(rule, t, n)
    ensures m == n
  {
    LeastIsLeast(rule, t, m.bindings, n.bindings);
    LeastIsLeast(rule, t, n.bindings, m.bindings);
    assert m.bindings.Keys == n.bindings.Keys;
  }

  // ----- Matching one role

  /** The bindings that a prefix of the fields adds. */
  ghost predicate Bound(fields: seq<(string, Pattern)>, event: Source, before: Values, after: Values) {
    && Extends(before, after) && (forall f :: f in fields ==> FieldMatches(f, event, after))
    && forall x :: x in after && x !in before ==> exists f :: f in fields && f.1 == Variable(x)
  }

  /** Unifies the fields of an event with the patterns of a role; None when no extension of the bindings does. */
  method MatchRole(role: RolePattern, event: Source, bindings: Values) returns (updated: Option<Values>)
    ensures updated.Some? ==> event.eventType == role.eventType && Bound(role.fields, event, bindings, updated.value)
    ensures updated.None? ==> forall b :: Extends(bindings, b) ==> !RoleMatches(role, event, b)
  {
    if event.eventType != role.eventType { return None; }
    var b := bindings;
    for i := 0 to |role.fields|
      invariant Bound(role.fields[..i], event, bindings, b)
      invariant forall c :: Extends(bindings, c) && RoleMatches(role, event, c) ==> Extends(b, c)
    {
      var field := role.fields[i];
      assert field in role.fields && role.fields[..i + 1] == role.fields[..i] + [field];
      if field.0 !in event.fields { return None; }
      var actual := event.fields[field.0];
      match field.1
      case Variable(x) =>
        if x in b && b[x] != actual { return None; }
        b := b[x := actual];
      case Exactly(v) =>
        if actual != v { return None; }
    }
    WholePrefix(role.fields);
    updated := Some(b);
  }

  // ----- The search

  lemma ZipExtends(names: seq<string>, t: seq<Source>, e: Source)
    requires NoDup(names) && |t| < |names|
    ensures Zip(names[..|t| + 1], t + [e]).Keys == Zip(names[..|t|], t).Keys + {names[|t|]}
    ensures names[|t|] !in Zip(names[..|t|], t)
    ensures Zip(names[..|t| + 1], t + [e])[names[|t|]] == e
    ensures forall x :: x in Zip(names[..|t|], t) ==> Zip(names[..|t| + 1], t + [e])[x] == Zip(names[..|t|], t)[x]
  {
    var n := |t|;
    PrefixElements(names, n);
    ZipAt(names[..n + 1], t + [e], n);
    forall x | x in Zip(names[..n], t) ensures Zip(names[..n + 1], t + [e])[x] == Zip(names[..n], t)[x] {
      assert x in Elements(names[..n]);
      var k :| 0 <= k < n && names[..n][k] == x;
      ZipAt(names[..n], t, k);
      ZipAt(names[..n + 1], t + [e], k);
    }
  }

  /** Selecting the event of the next role. */
  lemma SelectNext(names: seq<string>, t: seq<Source>, e: Source)
    requires NoDup(names) && |t| < |names|
    ensures Zip(names[..|t|], t)[names[|t|] := e] == Zip(names[..|t| + 1], t + [e])
  {
    ZipExtends(names, t, e);
    var longer, selected := Zip(names[..|t| + 1], t + [e]), Zip(names[..|t|], t)[names[|t|] := e];
    assert selected.Keys == longer.Keys;
  }

  /** Popping it again. */
  lemma PopLast(names: seq<string>, t: seq<Source>, e: Source)
    requires NoDup(names) && |t| < |names|
    ensures Zip(names[..|t| + 1], t + [e]) - {names[|t|]} == Zip(names[..|t|], t)
  {
    ZipExtends(names, t, e);
    var shorter, popped := Zip(names[..|t|], t), Zip(names[..|t| + 1], t + [e]) - {names[|t|]};
    assert popped.Keys == shorter.Keys;
  }

  lemma SelectedAreTuple(names: seq<string>, t: seq<Source>)
    requires NoDup(names) && |t| <= |names|
    ensures var selected := Zip(names[..|t|], t);
            && (forall k :: 0 <= k < |t| ==> names[k] in selected && selected[names[k]] == t[k])
            && forall x :: x in selected ==> exists k :: 0 <= k < |t| && selected[x] == t[k]
  {
    var selected := Zip(names[..|t|], t);
    forall k | 0 <= k < |t| ensures names[k] in selected && selected[names[k]] == t[k] {
      ZipAt(names[..|t|], t, k);
    }
    forall x | x in selected ensures exists k :: 0 <= k < |t| && selected[x] == t[k] {
      assert x in Elements(names[..|t|]);
      var k :| 0 <= k < |t| && names[..|t|][k] == x;
      assert names[k] == x;
    }
  }

  /** `m` reports a match that starts with the prefix. */
  ghost predicate Reported(rule: SummaryRule, events: map<string, seq<Source>>, prefix: seq<Source>, m: Match) {
    exists t :: IsMatch(rule, events, t) && prefix <= t && Reports(rule, t, m)
  }

  /** `ms` holds the reports of the matches below the prefix, each once. */
  ghost predicate Lists(rule: SummaryRule, events: map<string, seq<Source>>, prefix: seq<Source>, ms: seq<Match>) {
    && NoDup(ms) && InSearchOrder(rule, events, ms)
    && forall m :: m in ms <==> Reported(rule, events, prefix, m)
  }

  /** Where two tuples first differ, the event of `t` comes first among the events of its type. */
  ghost predicate Precedes(rule: SummaryRule, events: map<string, seq<Source>>, t: seq<Source>, u: seq<Source>) {
    exists k, i, j :: 0 <= k < |t| && k < |u| && k < |rule.roles| && t[..k] == u[..k]
        && rule.roles[k].eventType in events && 0 <= i < j < |events[rule.roles[k].eventType]|
        && t[k] == events[rule.roles[k].eventType][i] && u[k] == events[rule.roles[k].eventType][j]
  }

  ghost predicate Earlier(rule: SummaryRule, events: map<string, seq<Source>>, m: Match, n: Match) {
    forall t, u :: Reports(rule, t, m) && Reports(rule, u, n) ==> Precedes(rule, events, t, u)
  }

  /** Reports follow the order of their tuples: role by role, in the order of the trace. */
  ghost predicate InSearchOrder(rule: SummaryRule, events: map<string, seq<Source>>, ms: seq<Match>) {
    forall a, b :: 0 <= a < b < |ms| ==> Earlier(rule, events, ms[a], ms[b])
  }

  /** Reports below an earlier candidate come before those below a later one. */
  lemma CandidatesInOrder(rule: SummaryRule, events: map<string, seq<Source>>, prefix: seq<Source>, i: nat, j: nat,
                          m: Match, n: Match)
    requires ValidRule(rule) && |prefix| < |rule.roles|
    requires i < j < |Candidates(events, rule.roles[|prefix|].eventType)|
    requires Reported(rule, events, prefix + [Candidates(events, rule.roles[|prefix|].eventType)[i]], m)
    requires Reported(rule, events, prefix + [Candidates(events, rule.roles[|prefix|].eventType)[j]], n)
    ensures Earlier(rule, events, m, n)
  {
    var candidates := Candidates(events, rule.roles[|prefix|].eventType);
    var v :| IsMatch(rule, events, v) && prefix + [candidates[i]] <= v && Reports(rule, v, m);
    var w :| IsMatch(rule, events, w) && prefix + [candidates[j]] <= w && Reports(rule, w, n);
    assert v[|prefix|] == candidates[i] && w[|prefix|] == candidates[j];
    assert v[..|prefix|] == prefix && w[..|prefix|] == prefix;
    forall t, u | Reports(rule, t, m) && Reports(rule, u, n) ensures Precedes(rule, events, t, u) {
      ReportsOnce(rule, t, v, m);
      ReportsOnce(rule, u, w, n);
    }
  }

  /** `m` reports a match whose next event is one of the first `n` candidates. */
  ghost predicate ReportedBy(rule: SummaryRule, events: map<string, seq<Source>>, prefix: seq<Source>,
                             candidates: seq<Source>, n: nat, m: Match)
    requires n <= |candidates|
  {
    exists i :: 0 <= i < n && Reported(rule, events, prefix + [candidates[i]], m)
  }

  lemma ReportedApart(rule: SummaryRule, events: map<string, seq<Source>>, prefix: seq<Source>, e: Source, f: Source,
                      m: Match)
    requires ValidRule(rule) && e != f && Reported(rule, events, prefix + [e], m)
    ensures !Reported(rule, events, prefix + [f], m)
  {
    var t :| IsMatch(rule, events, t) && prefix + [e] <= t && Reports(rule, t, m);
    assert t[|prefix|] == e;
    forall u | prefix + [f] <= u ensures !Reports(rule, u, m) {
      assert u[|prefix|] == f;
      if Reports(rule, u, m) { ReportsOnce(rule, t, u, m); }
    }
  }

  /** A match below the prefix continues with some candidate. */
  lemma ReportedSplits(rule: SummaryRule, events: map<string, seq<Source>>, prefix: seq<Source>, m: Match)
    requires |prefix| < |rule.roles|
    ensures var candidates := Candidates(events, rule.roles[|prefix|].eventType);
            Reported(rule, events, prefix, m) <==> ReportedBy(rule, events, prefix, candidates, |candidates|, m)
  {
    var candidates := Candidates(events, rule.roles[|prefix|].eventType);
    if Reported(rule, events, prefix, m) {
      var t :| IsMatch(rule, events, t) && prefix <= t && Reports(rule, t, m);
      var i :| 0 <= i < |candidates| && candidates[i] == t[|prefix|];
      assert prefix + [candidates[i]] <= t;
    }
    if ReportedBy(rule, events, prefix, candidates, |candidates|, m) {
      var i :| 0 <= i < |candidates| && Reported(rule, events, prefix + [candidates[i]], m);
      var t :| IsMatch(rule, events, t) && prefix + [candidates[i]] <= t && Reports(rule, t, m);
      assert prefix <= t;
    }
  }

  /** The matches of one more candidate. */
  lemma ListsMore(rule: SummaryRule, events: map<string, seq<Source>>, prefix: seq<Source>, candidates: seq<Source>,
                  n: nat, ms: seq<Match>, more: seq<Match>)
    requires ValidRule(rule) && |prefix| < |rule.roles|
    requires candidates == Candidates(events, rule.roles[|prefix|].eventType)
    requires n < |candidates| && NoDup(candidates) && NoDup(ms) && InSearchOrder(rule, events, ms)
    requires forall m :: m in ms <==> ReportedBy(rule, events, prefix, candidates, n, m)
    requires Lists(rule, events, prefix + [candidates[n]], more)
    ensures NoDup(ms + more) && InSearchOrder(rule, events, ms + more)
    ensures forall m :: m in ms + more <==> ReportedBy(rule, events, prefix, candidates, n + 1, m)
  {
    forall m | m in ms ensures m !in more {
      var i :| 0 <= i < n && Reported(rule, events, prefix + [candidates[i]], m);
      ReportedApart(rule, events, prefix, candidates[i], candidates[n], m);
    }
    AppendNoDup(ms, more);
    forall a, b | 0 <= a < |ms| <= b < |ms + more| ensures Earlier(rule, events, (ms + more)[a], (ms + more)[b]) {
      var m, o := ms[a], more[b - |ms|];
      assert m in ms && o in more;
      var i :| 0 <= i < n && Reported(rule, events, prefix + [candidates[i]], m);
      CandidatesInOrder(rule, events, prefix, i, n, m, o);
    }
  }

  /** Every match has a report: any explanation, restricted to the variables of the rule. */
  lemma MatchHasReport(rule: SummaryRule, events: map<string, seq<Source>>, t: seq<Source>) returns (m: Match)
    requires IsMatch(rule, events, t)
    ensures Reports(rule, t, m)
  {
    var b :| Explains(rule, t, b);
    var least := map x | x in b && Binds(rule, |t|, x) :: b[x];
    forall k | 0 <= k < |t| ensures RoleMatches(rule.roles[k], t[k], least) {
      assert RoleMatches(rule.roles[k], t[k], b);
      forall f | f in rule.roles[k].fields ensures FieldMatches(f, t[k], least) {
        assert FieldMatches(f, t[k], b);
        if f.1.Variable? { assert Binds(rule, |t|, f.1.name); }
      }
    }
    m := Match(Zip(RoleNames(rule.roles), t), least);
  }

  /** A prefix of a match is well-shaped. */
  lemma PrefixShape(rule: SummaryRule, events: map<string, seq<Source>>, prefix: seq<Source>, t: seq<Source>)
    requires IsMatch(rule, events, t) && prefix <= t
    ensures Shape(rule, events, prefix)
  {
    assert forall k :: 0 <= k < |prefix| ==> prefix[k] == t[k];
  }

  /** What the selection says about the tuple: its identifiers, and its last event. */
  lemma SelectionShows(names: seq<string>, t: seq<Source>, id: Id)
    requires NoDup(names) && |t| <= |names|
    ensures var selected := Zip(names[..|t|], t);
            && ((exists x | x in selected :: selected[x].id == id) <==> exists k :: 0 <= k < |t| && t[k].id == id)
            && (t != [] ==> names[|t| - 1] in selected && selected[names[|t| - 1]] == t[|t| - 1])
  {
    SelectedAreTuple(names, t);
  }

  /** Events without a cycle may stand anywhere. */
  predicate CyclesOrdered(previous: Source, current: Source, strict: bool) {
    if previous.cycle.None? || current.cycle.None? then true
    else if strict then previous.cycle.value < current.cycle.value
    else previous.cycle.value <= current.cycle.value
  }

  /** Extending a well-shaped prefix. */
  lemma ExtendShape(rule: SummaryRule, events: map<string, seq<Source>>, prefix: seq<Source>, e: Source)
    requires |prefix| < |rule.roles| && Shape(rule, events, prefix)
    requires e in Candidates(events, rule.roles[|prefix|].eventType)
    ensures Shape(rule, events, prefix + [e]) <==>
            && (rule.distinctEvents ==> forall k :: 0 <= k < |prefix| ==> prefix[k].id != e.id)
            && (rule.ordered && prefix != [] ==> CyclesOrdered(prefix[|prefix| - 1], e, rule.strictOrder))
  {
    var t := prefix + [e];
    assert t[|prefix|] == e && forall k :: 0 <= k < |prefix| ==> t[k] == prefix[k];
    if rule.ordered && prefix != [] { assert t[|prefix| - 1] == prefix[|prefix| - 1]; }
  }

  /** A match below the extension explains its event by an extension of the least binding. */
  lemma BindingBelow(rule: SummaryRule, events: map<string, seq<Source>>, prefix: seq<Source>, b: Values, e: Source,
                     t: seq<Source>)
    requires |prefix| < |rule.roles| && LeastBinding(rule, prefix, b) && IsMatch(rule, events, t) && prefix + [e] <= t
    ensures exists c :: Extends(b, c) && RoleMatches(rule.roles[|prefix|], e, c)
  {
    var c :| Explains(rule, t, c);
    assert t[|prefix|] == e && forall k :: 0 <= k < |prefix| ==> t[k] == prefix[k];
    LeastIsLeast(rule, prefix, b, c);
    assert RoleMatches(rule.roles[|prefix|], t[|prefix|], c);
  }

  /** No binding explains the extension when none extends the least binding of the prefix. */
  lemma NoneExplains(rule: SummaryRule, events: map<string, seq<Source>>, prefix: seq<Source>, b: Values, e: Source)
    requires |prefix| < |rule.roles| && LeastBinding(rule, prefix, b)
    requires forall c :: Extends(b, c) ==> !RoleMatches(rule.roles[|prefix|], e, c)
    ensures Lists(rule, events, prefix + [e], [])
  {
    forall t | IsMatch(rule, events, t) ensures !(prefix + [e] <= t) {
      if prefix + [e] <= t { BindingBelow(rule, events, prefix, b, e, t); }
    }
  }

  lemma NoneShaped(rule: SummaryRule, events: map<string, seq<Source>>, prefix: seq<Source>, e: Source)
    requires |prefix| < |rule.roles| && !Shape(rule, events, prefix + [e])
    ensures Lists(rule, events, prefix + [e], [])
  {
    forall t | IsMatch(rule, events, t) ensures !(prefix + [e] <= t) {
      if prefix + [e] <= t { PrefixShape(rule, events, prefix + [e], t); }
    }
  }

  /** The least binding of the extension. */
  lemma ExtendBinding(rule: SummaryRule, prefix: seq<Source>, b: Values, e: Source, c: Values)
    requires |prefix| < |rule.roles| && LeastBinding(rule, prefix, b)
    requires e.eventType == rule.roles[|prefix|].eventType && Bound(rule.roles[|prefix|].fields, e, b, c)
    ensures LeastBinding(rule, prefix + [e], c)
  {
    var t := prefix + [e];
    forall k | 0 <= k < |t| ensures RoleMatches(rule.roles[k], t[k], c) {
      if k < |prefix| {
        assert RoleMatches(rule.roles[k], prefix[k], b);
        forall f | f in rule.roles[k].fields ensures FieldMatches(f, t[k], c) { assert FieldMatches(f, prefix[k], b); }
      }
    }
    forall x | x in c ensures Binds(rule, |t|, x) {
      if x in b {
        var k, f :| 0 <= k < |prefix| && f in rule.roles[k].fields && f.1 == Variable(x);
      } else {
        var f :| f in rule.roles[|prefix|].fields && f.1 == Variable(x);
        assert |prefix| < |t|;
      }
    }
  }

  /** A complete tuple is the only match below itself. */
  lemma FullPrefix(rule: SummaryRule, events: map<string, seq<Source>>, t: seq<Source>, m: Match)
    requires |t| == |rule.roles| && Shape(rule, events, t) && Reports(rule, t, m)
    ensures Lists(rule, events, t, [m])
  {
    assert IsMatch(rule, events, t);
    forall n | Reported(rule, events, t, n) ensures n == m {
      var u :| IsMatch(rule, events, u) && t <= u && Reports(rule, u, n);
      assert u == t;
      OneReport(rule, t, m, n);
    }
  }

  /** The shared selection of one search, and the matches it has yielded. */
  class Search {
    const rule: SummaryRule
    const events: map<string, seq<Source>>
    var selected: map<string, Source>
    var yielded: seq<Match>

    constructor (rule: SummaryRule, events: map<string, seq<Source>>)
      ensures this.rule == rule && this.events == events && selected == map[] && yielded == []
    {
      this.rule, this.events, selected, yielded := rule, events, map[], [];
    }

    /** The selection holds the tuple, and the bindings are its least. */
    ghost predicate At(t: seq<Source>, bindings: Values)
      reads this
    {
      && ValidRule(rule) && |t| <= |rule.roles| && (forall eventType :: NoDup(Candidates(events, eventType)))
      && Shape(rule, events, t) && LeastBinding(rule, t, bindings)
      && selected == Zip(RoleNames(rule.roles)[..|t|], t)
    }

    /** The candidate may follow the selected events. */
    method MayFollow(event: Source, index: nat, ghost t: seq<Source>, ghost bindings: Values) returns (ok: bool)
      requires At(t, bindings) && index == |t| < |rule.roles|
      requires event in Candidates(events, rule.roles[index].eventType)
      ensures ok <==> Shape(rule, events, t + [event])
    {
      var names := RoleNames(rule.roles);
      ExtendShape(rule, events, t, event);
      SelectionShows(names, t, event.id);
      if rule.distinctEvents && exists x | x in selected :: selected[x].id == event.id { return false; }
      if rule.ordered && index > 0 && !CyclesOrdered(selected[names[index - 1]], event, rule.strictOrder) {
        return false;
      }
      ok := true;
    }

    /** Yields every match below the selected events, each once, and leaves the selection as it was. */
    method Visit(index: nat, bindings: Values, ghost t: seq<Source>)
      requires At(t, bindings) && index == |t|
      modifies this
      ensures At(t, bindings) && old(yielded) <= yielded
      ensures Lists(rule, events, t, yielded[|old(yielded)|..])
      decreases |rule.roles| - index
    {
      if index == |rule.roles| {
        var m := Match(selected, bindings);
        assert RoleNames(rule.roles)[..|t|] == RoleNames(rule.roles);
        FullPrefix(rule, events, t, m);
        yielded := yielded + [m];
        assert yielded[|old(yielded)|..] == [m];
        return;
      }
      var candidates := Candidates(events, rule.roles[index].eventType);
      ghost var before := |yielded|;
      for i := 0 to |candidates|
        invariant At(t, bindings) && old(yielded) <= yielded
        invariant NoDup(yielded[before..]) && InSearchOrder(rule, events, yielded[before..])
        invariant forall m :: m in yielded[before..] <==> ReportedBy(rule, events, t, candidates, i, m)
      {
        ghost var was := yielded;
        TryCandidate(index, candidates[i], bindings, t);
        ListsMore(rule, events, t, candidates, i, was[before..], yielded[|was|..]);
        assert yielded[before..] == was[before..] + yielded[|was|..];
      }
      forall m ensures m in yielded[before..] <==> Reported(rule, events, t, m) { ReportedSplits(rule, events, t, m); }
    }

    /** Selects one candidate, visits the matches below it, and pops it again. */
    method TryCandidate(index: nat, event: Source, bindings: Values, ghost t: seq<Source>)
      requires At(t, bindings) && index == |t| < |rule.roles|
      requires event in Candidates(events, rule.roles[index].eventType)
      modifies this
      ensures At(t, bindings) && old(yielded) <= yielded
      ensures Lists(rule, events, t + [event], yielded[|old(yielded)|..])
      decreases |rule.roles| - index, 0
    {
      assert yielded[|yielded|..] == [];
      var follows := MayFollow(event, index, t, bindings);
      if !follows {
        NoneShaped(rule, events, t, event);
        return;
      }
      var updated := MatchRole(rule.roles[index], event, bindings);
      if updated.None? {
        NoneExplains(rule, events, t, bindings, event);
        return;
      }
      ExtendBinding(rule, t, bindings, event, updated.value);
      SelectNext(RoleNames(rule.roles), t, event);
      PopLast(RoleNames(rule.roles), t, event);
      selected := selected[rule.roles[index].name := event];
      Visit(index + 1, updated.value, t + [event]);
      selected := selected - {rule.roles[index].name};
    }
  }

  /** Every matching role tuple is yielded exactly once, in order, with the binding of its variables. */
  method RuleMatches(events: map<string, seq<Source>>, rule: SummaryRule) returns (matches: seq<Match>)
    requires ValidRule(rule) && forall eventType :: NoDup(Candidates(events, eventType))
    ensures NoDup(matches) && InSearchOrder(rule, events, matches)
    ensures forall m :: m in matches <==> exists t :: IsMatch(rule, events, t) && Reports(rule, t, m)
  {
    var search := new Search(rule, events);
    assert RoleNames(rule.roles)[..0] == [];
    search.Visit(0, map[], []);
    matches := search.yielded;
    assert matches[0..] == matches;
  }

  /** Reports correspond to matching tuples one to one, so each tuple is yielded exactly once. */
  lemma TuplesAndReports(rule: SummaryRule, events: map<string, seq<Source>>, t: seq<Source>)
    requires ValidRule(rule) && IsMatch(rule, events, t)
    ensures exists m :: Reports(rule, t, m)
    ensures forall m, n :: Reports(rule, t, m) && Reports(rule, t, n) ==> m == n
    ensures forall m, u :: Reports(rule, t, m) && Reports(rule, u, m) ==> t == u
  {
    var r := MatchHasReport(rule, events, t);
    forall m, n | Reports(rule, t, m) && Reports(rule, t, n) ensures m == n { OneReport(rule, t, m, n); }
    forall m, u | Reports(rule, t, m) && Reports(rule, u, m) ensures t == u { ReportsOnce(rule, t, u, m); }
  }

  /** A report gives each role its event of the tuple. */
  lemma ReportSelects(rule: SummaryRule, t: seq<Source>, m: Match)
    requires ValidRule(rule) && Reports(rule, t, m)
    ensures m.selected.Keys == Elements(RoleNames(rule.roles))
    ensures forall k :: 0 <= k < |t| ==> rule.roles[k].name in m.selected && m.selected[rule.roles[k].name] == t[k]
  {
    var names := RoleNames(rule.roles);
    forall k | 0 <= k < |t| ensures rule.roles[k].name in m.selected && m.selected[rule.roles[k].name] == t[k] {
      ZipAt(names, t, k);
    }
  }

  /** It gives each variable the value of every field that it stands for, and binds nothing else. */
  lemma ReportBinds(rule: SummaryRule, t: seq<Source>, m: Match)
    requires Reports(rule, t, m)
    ensures forall k, f :: 0 <= k < |t| && f in rule.roles[k].fields ==>
      && f.0 in t[k].fields
      && match f.1
         case Exactly(v) => t[k].fields[f.0] == v
         case Variable(x) => x in m.bindings && m.bindings[x] == t[k].fields[f.0]
    ensures forall x :: x in m.bindings ==>
      exists k, f :: 0 <= k < |t| && f in rule.roles[k].fields && f.1 == Variable(x)
  {
    forall k, f | 0 <= k < |t| && f in rule.roles[k].fields ensures FieldMatches(f, t[k], m.bindings) {
      assert RoleMatches(rule.roles[k], t[k], m.bindings);
    }
    forall x | x in m.bindings ensures exists k, f :: 0 <= k < |t| && f in rule.roles[k].fields && f.1 == Variable(x) {
      assert Binds(rule, |t|, x);
    }
  }
}
