/** _resolve_spans over recorded events: the pairing rules, the loop with its consumed flags, and
  * the sorting of every end event into exactly one of the report's lists.
  */
module SpanResolution {
  import opened Collections
  import opened Intervals
  import opened Sorting
  import opened SpanPairing
  import Text

  datatype Field = ExecutionId | TaskId | AttemptUid | JobId

  /** What an event record carries; window is a settled span in its payload, if both of its ends
    * parse, and category the payload's own category. */
  datatype Record = Record(kind: string, fields: map<Field, string>, text: int, ticks: Option<int>,
                           window: Option<Span>, category: Option<string>, baselineExcluded: bool)

  datatype Rule = Rule(endKind: string, startKind: string, fields: seq<Field>)

  const PAIR_RULES: seq<Rule> := [
    Rule("attempt.finished", "attempt.dispatched", [ExecutionId, TaskId, AttemptUid]),
    Rule("review.finished", "review.started", [ExecutionId]),
    Rule("compaction.finished", "compaction.requested", [ExecutionId]),
    Rule("background.finished", "background.launched", [ExecutionId, JobId]),
    Rule("fallback.finished", "fallback.started", [ExecutionId])
  ]

  predicate HasSuffix(s: string, suffix: string) {
    |s| >= |suffix| && s[|s| - |suffix|..] == suffix
  }

  function IdentityKey(e: Record, fields: seq<Field>): Option<seq<string>> {
    if forall i :: 0 <= i < |fields| ==> fields[i] in e.fields then
      Some(seq(|fields|, i requires 0 <= i < |fields| && fields[i] in e.fields => e.fields[fields[i]]))
    else None
  }

  /** The slot a record has under the first rule that names its kind. */
  function SlotUnder(e: Record, rules: seq<Rule>, asStart: bool): Option<Slot> {
    if rules == [] then None
    else if e.kind == (if asStart then rules[0].startKind else rules[0].endKind) then
      match IdentityKey(e, rules[0].fields)
      case None => None
      case Some(key) => Some(Slot(rules[0].startKind, key))
    else SlotUnder(e, rules[1..], asStart)
  }

  function Seen(e: Record): Event {
    Event(e.text, e.ticks, SlotUnder(e, PAIR_RULES, true),
          if e.window.Some? then None else SlotUnder(e, PAIR_RULES, false),
          HasSuffix(e.kind, ".finished") || HasSuffix(e.kind, ".observed"))
  }

  function SeenAll(records: seq<Record>): (r: seq<Event>)
    ensures |r| == |records|
    ensures forall i :: 0 <= i < |r| ==> r[i] == Seen(records[i])
  {
    seq(|records|, i requires 0 <= i < |records| => Seen(records[i]))
  }

  function CategoryFor(e: Record): string {
    if e.category.Some? && e.category.value != "" then e.category.value else Text.BeforeDot(e.kind)
  }

  // ---------------------------------------------------------------------
  // What belongs together, said of the records themselves
  // ---------------------------------------------------------------------

  /** Both records carry the field, with one value. */
  predicate Agree(e: Record, s: Record, f: Field) {
    f in e.fields && f in s.fields && e.fields[f] == s.fields[f]
  }

  /** e ends what s starts: the kinds fit, and so does everything that identifies the activity. */
  predicate Joinable(e: Record, s: Record) {
    || (e.kind == "attempt.finished" && s.kind == "attempt.dispatched" &&
        Agree(e, s, ExecutionId) && Agree(e, s, TaskId) && Agree(e, s, AttemptUid))
    || (e.kind == "review.finished" && s.kind == "review.started" && Agree(e, s, ExecutionId))
    || (e.kind == "compaction.finished" && s.kind == "compaction.requested" && Agree(e, s, ExecutionId))
    || (e.kind == "background.finished" && s.kind == "background.launched" &&
        Agree(e, s, ExecutionId) && Agree(e, s, JobId))
    || (e.kind == "fallback.finished" && s.kind == "fallback.started" && Agree(e, s, ExecutionId))
  }

  predicate IsEnd(e: Record) {
    HasSuffix(e.kind, ".finished") || HasSuffix(e.kind, ".observed")
  }

  /** Record s can close the end event e. */
  predicate CanClose(e: Record, s: Record) {
    e.window.None? && Joinable(e, s) && e.ticks.Some? && s.ticks.Some? && s.ticks.value <= e.ticks.value
  }

  lemma SuffixMeans(s: string, suffix: string)
    ensures HasSuffix(s, suffix) <==> exists p: string :: s == p + suffix
  {
    if HasSuffix(s, suffix) {
      assert s == s[..|s| - |suffix|] + suffix;
    }
    if p: string :| s == p + suffix {
      assert s[|s| - |suffix|..] == suffix;
    }
  }

  /** Two records have the same key for some fields if and only if they agree in each of them. */
  lemma SameKeyIff(e: Record, s: Record, fields: seq<Field>)
    ensures IdentityKey(e, fields).Some? && IdentityKey(e, fields) == IdentityKey(s, fields) <==>
            forall i :: 0 <= i < |fields| ==> Agree(e, s, fields[i])
  {
    var k, l := IdentityKey(e, fields), IdentityKey(s, fields);
    if k.Some? && k == l {
      forall i | 0 <= i < |fields| ensures Agree(e, s, fields[i]) {
        assert k.value[i] == l.value[i];
      }
    }
    if forall i :: 0 <= i < |fields| ==> Agree(e, s, fields[i]) {
      assert forall i :: 0 <= i < |fields| ==> Agree(e, s, fields[i]) && fields[i] in e.fields && fields[i] in s.fields;
      assert k.value == l.value;
    }
  }

  /** The rule for a pair of kinds, if there is one. */
  ghost predicate SameActivity(e: Record, s: Record, rule: Rule) {
    && e.kind == rule.endKind && s.kind == rule.startKind
    && forall i :: 0 <= i < |rule.fields| ==> Agree(e, s, rule.fields[i])
  }

  ghost predicate OneRulePerKind(rules: seq<Rule>) {
    forall i, j :: 0 <= i < j < |rules| ==>
      rules[i].endKind != rules[j].endKind && rules[i].startKind != rules[j].startKind
  }

  lemma {:induction false} SlotKind(e: Record, rules: seq<Rule>, asStart: bool)
    requires SlotUnder(e, rules, asStart).Some?
    ensures exists i :: 0 <= i < |rules| && SlotUnder(e, rules, asStart).value.startKind == rules[i].startKind
  {
    if e.kind != (if asStart then rules[0].startKind else rules[0].endKind) {
      SlotKind(e, rules[1..], asStart);
      var i :| 0 <= i < |rules[1..]| && SlotUnder(e, rules[1..], asStart).value.startKind == rules[1..][i].startKind;
      assert rules[i + 1] == rules[1..][i];
    }
  }

  lemma SlotOfLaterRule(e: Record, rules: seq<Rule>, asStart: bool)
    requires OneRulePerKind(rules) && rules != []
    ensures SlotUnder(e, rules[1..], asStart).Some? ==>
              SlotUnder(e, rules[1..], asStart).value.startKind != rules[0].startKind
  {
    var rest := rules[1..];
    if SlotUnder(e, rest, asStart).Some? {
      SlotKind(e, rest, asStart);
      var i :| 0 <= i < |rest| && SlotUnder(e, rest, asStart).value.startKind == rest[i].startKind;
      assert rules[i + 1] == rest[i] && rules[0].startKind != rules[i + 1].startKind;
    }
  }

  lemma FirstRuleOnly(e: Record, s: Record, rules: seq<Rule>)
    requires OneRulePerKind(rules) && rules != []
    requires e.kind == rules[0].endKind || s.kind == rules[0].startKind
    ensures (exists i :: 0 <= i < |rules| && SameActivity(e, s, rules[i])) <==> SameActivity(e, s, rules[0])
  {
    forall i | 0 < i < |rules| ensures !SameActivity(e, s, rules[i]) {
      assert rules[0].endKind != rules[i].endKind && rules[0].startKind != rules[i].startKind;
    }
  }

  lemma LaterRulesOnly(e: Record, s: Record, rules: seq<Rule>)
    requires rules != [] && !SameActivity(e, s, rules[0])
    ensures (exists i :: 0 <= i < |rules| && SameActivity(e, s, rules[i])) <==>
            (exists i :: 0 <= i < |rules[1..]| && SameActivity(e, s, rules[1..][i]))
  {
    if i :| 0 <= i < |rules| && SameActivity(e, s, rules[i]) {
      assert rules[1..][i - 1] == rules[i];
    }
    if i :| 0 <= i < |rules[1..]| && SameActivity(e, s, rules[1..][i]) {
      assert rules[i + 1] == rules[1..][i];
    }
  }

  /** An end and a start have the same slot if and only if they agree under one of the rules. */
  lemma {:induction false} SameSlotIff(e: Record, s: Record, rules: seq<Rule>)
    requires OneRulePerKind(rules)
    ensures SlotUnder(e, rules, false).Some? && SlotUnder(e, rules, false) == SlotUnder(s, rules, true) <==>
            exists i :: 0 <= i < |rules| && SameActivity(e, s, rules[i])
  {
    if rules != [] {
      if e.kind == rules[0].endKind || s.kind == rules[0].startKind {
        FirstRuleOnly(e, s, rules);
        SameKeyIff(e, s, rules[0].fields);
        SlotOfLaterRule(e, rules, false);
        SlotOfLaterRule(s, rules, true);
      } else {
        LaterRulesOnly(e, s, rules);
        SameSlotIff(e, s, rules[1..]);
      }
    }
  }

  lemma RulesAreOnePerKind()
    ensures OneRulePerKind(PAIR_RULES) && |PAIR_RULES| == 5
  {
  }

  lemma JoinableIffRule(e: Record, s: Record)
    ensures Joinable(e, s) <==> exists i :: 0 <= i < |PAIR_RULES| && SameActivity(e, s, PAIR_RULES[i])
  {
    var rs := PAIR_RULES;
    FieldsOfRules(e, s);
    if Joinable(e, s) {
      assert SameActivity(e, s, rs[0]) || SameActivity(e, s, rs[1]) || SameActivity(e, s, rs[2]) ||
             SameActivity(e, s, rs[3]) || SameActivity(e, s, rs[4]);
    }
    if i :| 0 <= i < |rs| && SameActivity(e, s, rs[i]) {
      assert i == 0 || i == 1 || i == 2 || i == 3 || i == 4;
    }
  }

  lemma AgreeInAll(e: Record, s: Record, fields: seq<Field>)
    ensures |fields| == 1 ==>
              ((forall i :: 0 <= i < |fields| ==> Agree(e, s, fields[i])) <==> Agree(e, s, fields[0]))
    ensures |fields| == 2 ==>
              ((forall i :: 0 <= i < |fields| ==> Agree(e, s, fields[i])) <==>
               Agree(e, s, fields[0]) && Agree(e, s, fields[1]))
    ensures |fields| == 3 ==>
              ((forall i :: 0 <= i < |fields| ==> Agree(e, s, fields[i])) <==>
               Agree(e, s, fields[0]) && Agree(e, s, fields[1]) && Agree(e, s, fields[2]))
  {
  }

  lemma FieldsOfRules(e: Record, s: Record)
    ensures SameActivity(e, s, PAIR_RULES[0]) <==>
            e.kind == "attempt.finished" && s.kind == "attempt.dispatched" &&
            Agree(e, s, ExecutionId) && Agree(e, s, TaskId) && Agree(e, s, AttemptUid)
    ensures SameActivity(e, s, PAIR_RULES[1]) <==>
            e.kind == "review.finished" && s.kind == "review.started" && Agree(e, s, ExecutionId)
    ensures SameActivity(e, s, PAIR_RULES[2]) <==>
            e.kind == "compaction.finished" && s.kind == "compaction.requested" && Agree(e, s, ExecutionId)
    ensures SameActivity(e, s, PAIR_RULES[3]) <==>
            e.kind == "background.finished" && s.kind == "background.launched" &&
            Agree(e, s, ExecutionId) && Agree(e, s, JobId)
    ensures SameActivity(e, s, PAIR_RULES[4]) <==>
            e.kind == "fallback.finished" && s.kind == "fallback.started" && Agree(e, s, ExecutionId)
  {
    var rs := PAIR_RULES;
    AgreeInAll(e, s, rs[0].fields);
    AgreeInAll(e, s, rs[1].fields);
    AgreeInAll(e, s, rs[2].fields);
    AgreeInAll(e, s, rs[3].fields);
    AgreeInAll(e, s, rs[4].fields);
  }

  lemma JoinableEnds(e: Record, s: Record)
    requires Joinable(e, s)
    ensures IsEnd(e)
  {
    assert "attempt.finished"[|"attempt"|..] == ".finished";
    assert "review.finished"[|"review"|..] == ".finished";
    assert "compaction.finished"[|"compaction"|..] == ".finished";
    assert "background.finished"[|"background"|..] == ".finished";
    assert "fallback.finished"[|"fallback"|..] == ".finished";
  }

  /** The pairing's test is the one said of the records: a start can close an end event if and only if the
    * two are joinable, the end has no window of its own, and the start is not later. */
  lemma ClosesIffCanClose(records: seq<Record>, e: int, s: int)
    ensures Closes(SeenAll(records), e, s) <==>
            0 <= e < |records| && 0 <= s < |records| && CanClose(records[e], records[s])
  {
    if 0 <= e < |records| && 0 <= s < |records| {
      var a, b := records[e], records[s];
      RulesAreOnePerKind();
      SameSlotIff(a, b, PAIR_RULES);
      JoinableIffRule(a, b);
      if Joinable(a, b) {
        JoinableEnds(a, b);
      }
      assert SeenAll(records)[e] == Seen(a) && SeenAll(records)[s] == Seen(b);
    }
  }

  // ---------------------------------------------------------------------
  // Outcomes
  // ---------------------------------------------------------------------

  /** A resolved span: its end event, the start event it closed if any, and its bounds. */
  datatype Resolved = Resolved(end: int, start: Option<int>, span: Span)

  datatype Resolution = Resolution(active: seq<Resolved>, fallback: seq<Resolved>, excluded: seq<Resolved>,
                                   unresolved: seq<int>, reversed: seq<int>)

  datatype Bounds = Open | Bounds(start: Option<int>, span: Span)

  /** The span an end event gets: its own window, else the start the pairing gives it. */
  function BoundsOf(records: seq<Record>, pairs: map<int, int>, e: int): Bounds
    requires 0 <= e < |records|
  {
    if records[e].window.Some? then Bounds(None, records[e].window.value)
    else if e in pairs && 0 <= pairs[e] < |records| && records[pairs[e]].ticks.Some? && records[e].ticks.Some? then
      Bounds(Some(pairs[e]), Span(records[pairs[e]].ticks.value, records[e].ticks.value))
    else Open
  }

  function File(r: Resolution, record: Record, e: int, b: Bounds): Resolution {
    match b
    case Open => r.(unresolved := r.unresolved + [e])
    case Bounds(start, span) =>
      if span.end < span.start then r.(reversed := r.reversed + [e])
      else if record.baselineExcluded then r.(excluded := r.excluded + [Resolved(e, start, span)])
      else if CategoryFor(record) in ["fallback", "fallback_self_impl"] then
        r.(fallback := r.fallback + [Resolved(e, start, span)])
      else r.(active := r.active + [Resolved(e, start, span)])
  }

  function FileAll(records: seq<Record>, pairs: map<int, int>, order: seq<int>): Resolution
    requires forall k :: 0 <= k < |order| ==> 0 <= order[k] < |records|
  {
    if order == [] then Resolution([], [], [], [], [])
    else
      var e := order[|order| - 1];
      File(FileAll(records, pairs, order[..|order| - 1]), records[e], e, BoundsOf(records, pairs, e))
  }

  lemma {:induction false} FileAllAgrees(records: seq<Record>, p: map<int, int>, q: map<int, int>, order: seq<int>)
    requires forall k :: 0 <= k < |order| ==> 0 <= order[k] < |records|
    requires forall e :: e in order ==> (e in p <==> e in q) && (e in p ==> p[e] == q[e])
    ensures FileAll(records, p, order) == FileAll(records, q, order)
  {
    if order != [] {
      FileAllAgrees(records, p, q, order[..|order| - 1]);
    }
  }

  /** The category a report files an end under: its own, else its kind up to the first dot. */
  lemma CategoryMeans(e: Record, before: string, after: string)
    requires '.' !in before && (e.kind == before || e.kind == before + "." + after)
    ensures CategoryFor(e) == if e.category.Some? && e.category.value != "" then e.category.value else before
  {
    if e.kind == before {
      Text.PartitionNone(before, '.');
    } else {
      Text.PartitionAt(before, '.', after);
    }
  }

  predicate CountsAsFallback(e: Record) {
    CategoryFor(e) == "fallback" || CategoryFor(e) == "fallback_self_impl"
  }

  /** What has a forward span goes to the list of its kind: excluded if so flagged, else by its category. */
  lemma {:induction false} FiledWhere(records: seq<Record>, pairs: map<int, int>, order: seq<int>, x: Resolved)
    requires forall k :: 0 <= k < |order| ==> 0 <= order[k] < |records|
    ensures var r := FileAll(records, pairs, order);
            var forward := x.end in order && 0 <= x.end < |records| && x.span.start <= x.span.end &&
                           BoundsOf(records, pairs, x.end) == Bounds(x.start, x.span);
            && (x in r.excluded <==> forward && records[x.end].baselineExcluded)
            && (x in r.fallback <==>
                  forward && !records[x.end].baselineExcluded && CountsAsFallback(records[x.end]))
            && (x in r.active <==>
                  forward && !records[x.end].baselineExcluded && !CountsAsFallback(records[x.end]))
  {
    if order != [] {
      var init, e := order[..|order| - 1], order[|order| - 1];
      FiledWhere(records, pairs, init, x);
      assert order == init + [e];
      FiledNow(FileAll(records, pairs, init), records[e], e, BoundsOf(records, pairs, e), x);
    }
  }

  lemma FiledNow(r: Resolution, record: Record, e: int, b: Bounds, x: Resolved)
    ensures var t := File(r, record, e, b);
            var forward := x.end == e && b == Bounds(x.start, x.span) && x.span.start <= x.span.end;
            && (x in t.excluded <==> x in r.excluded || (forward && record.baselineExcluded))
            && (x in t.fallback <==>
                  x in r.fallback || (forward && !record.baselineExcluded && CountsAsFallback(record)))
            && (x in t.active <==>
                  x in r.active || (forward && !record.baselineExcluded && !CountsAsFallback(record)))
  {
    assert Resolved(x.end, x.start, x.span) == x;
  }

  /** An end whose span runs backwards is only counted as reversed. */
  lemma {:induction false} ReversedExactly(records: seq<Record>, pairs: map<int, int>, order: seq<int>, e: int)
    requires forall k :: 0 <= k < |order| ==> 0 <= order[k] < |records|
    ensures e in FileAll(records, pairs, order).reversed <==>
            e in order && 0 <= e < |records| && BoundsOf(records, pairs, e).Bounds? &&
            BoundsOf(records, pairs, e).span.end < BoundsOf(records, pairs, e).span.start
  {
    if order != [] {
      ReversedExactly(records, pairs, order[..|order| - 1], e);
      assert order == order[..|order| - 1] + [order[|order| - 1]];
    }
  }

  function Spans(rs: seq<Resolved>): (r: seq<int>)
    ensures |r| == |rs|
    ensures forall i :: 0 <= i < |r| ==> r[i] == rs[i].end
  {
    seq(|rs|, i requires 0 <= i < |rs| => rs[i].end)
  }

  lemma SpansAppend(rs: seq<Resolved>, x: Resolved)
    ensures Spans(rs + [x]) == Spans(rs) + [x.end]
  {
  }

  ghost function Filed(r: Resolution): multiset<int> {
    multiset(Spans(r.active)) + multiset(Spans(r.fallback)) + multiset(Spans(r.excluded)) +
    multiset(r.unresolved) + multiset(r.reversed)
  }

  lemma OneListGrows(r: Resolution, t: Resolution, e: int, x: Resolved)
    requires x.end == e
    requires || t == r.(active := r.active + [x])
             || t == r.(fallback := r.fallback + [x])
             || t == r.(excluded := r.excluded + [x])
             || t == r.(unresolved := r.unresolved + [e])
             || t == r.(reversed := r.reversed + [e])
    ensures Filed(t) == Filed(r) + multiset{e}
  {
    SpansAppend(r.active, x);
    SpansAppend(r.fallback, x);
    SpansAppend(r.excluded, x);
  }

  lemma FileAddsOne(r: Resolution, record: Record, e: int, b: Bounds)
    ensures Filed(File(r, record, e, b)) == Filed(r) + multiset{e}
  {
    var x := if b.Bounds? then Resolved(e, b.start, b.span) else Resolved(e, None, Span(0, 0));
    OneListGrows(r, File(r, record, e, b), e, x);
  }

  /** Conservation: every end event is in exactly one list, once. */
  lemma {:induction false} EveryEndFiledOnce(records: seq<Record>, pairs: map<int, int>, order: seq<int>)
    requires forall k :: 0 <= k < |order| ==> 0 <= order[k] < |records|
    ensures Filed(FileAll(records, pairs, order)) == multiset(order)
  {
    if order != [] {
      var init, e := order[..|order| - 1], order[|order| - 1];
      EveryEndFiledOnce(records, pairs, init);
      assert order == init + [e];
      FileAddsOne(FileAll(records, pairs, init), records[e], e, BoundsOf(records, pairs, e));
    }
  }

  // ---------------------------------------------------------------------
  // The resolving loop
  // ---------------------------------------------------------------------

  ghost predicate Flags(consumed: array<bool>, used: set<int>)
    reads consumed
  {
    forall s :: 0 <= s < consumed.Length ==> (consumed[s] <==> s in used)
  }

  /** The inner loop: the last start of the pool that is not consumed and not after the end. */
  method PickStart(events: seq<Event>, consumed: array<bool>, pool: seq<int>, at: int, ghost used: set<int>)
    returns (candidate: Option<int>)
    requires consumed.Length == |events| && Flags(consumed, used)
    requires forall s :: s in pool ==> 0 <= s < |events|
    ensures candidate == LastFit(events, used, pool, at)
  {
    candidate := None;
    for i := 0 to |pool|
      invariant candidate == LastFit(events, used, pool[..i], at)
    {
      var s := pool[i];
      assert s in pool;
      assert pool[..i + 1][..i] == pool[..i];
      if !consumed[s] && events[s].ticks.Some? && events[s].ticks.value <= at {
        candidate := Some(s);
      }
    }
    assert pool[..|pool|] == pool;
  }

  /** Close the end event e with its candidate, consuming the start. */
  method CloseSpan(events: seq<Event>, consumed: array<bool>, pairs: map<int, int>, e: int)
    returns (next: map<int, int>)
    requires 0 <= e < |events| && consumed.Length == |events|
    requires Flags(consumed, pairs.Values) && e !in pairs
    modifies consumed
    ensures Flags(consumed, next.Values)
    ensures next == match Candidate(events, pairs.Values, e)
                    case None => pairs
                    case Some(s) => pairs[e := s]
  {
    next := pairs;
    if NeedsStart(events[e]) {
      var pool := Pool(events, events[e].closes.value);
      PoolMeaning(events, events[e].closes.value);
      var candidate := PickStart(events, consumed, pool, events[e].ticks.value, pairs.Values);
      if candidate.Some? {
        CandidateMeaning(events, pairs.Values, e);
        consumed[candidate.value] := true;
        ValuesOfUpdate(pairs, e, candidate.value);
        next := pairs[e := candidate.value];
      }
    }
  }

  method ResolveInOrder(records: seq<Record>, events: seq<Event>, order: seq<int>)
    returns (r: Resolution, pairs: map<int, int>)
    requires |events| == |records| && Indices(events, order)
    ensures pairs == Pairing(events, order) && r == FileAll(records, pairs, order)
  {
    var consumed := new bool[|events|](_ => false);
    pairs := map[];
    r := Resolution([], [], [], [], []);
    for k := 0 to |order|
      invariant pairs == Pairing(events, order[..k]) && Flags(consumed, pairs.Values)
      invariant r == FileAll(records, pairs, order[..k])
    {
      var e := order[k];
      ghost var before := pairs;
      assert order[..k + 1][..k] == order[..k] && e !in order[..k];
      pairs := CloseSpan(events, consumed, pairs, e);
      FileAllAgrees(records, before, pairs, order[..k]);
      r := File(r, records[e], e, BoundsOf(records, pairs, e));
    }
    assert order[..|order|] == order;
  }

  /** Resolve every end event in timestamp order, consuming start events as they are closed. */
  method ResolveSpans(records: seq<Record>) returns (r: Resolution, pairs: map<int, int>)
    ensures var events := SeenAll(records);
            Indices(events, Ends(events)) && pairs == Pairing(events, Ends(events)) &&
            r == FileAll(records, pairs, Ends(events)) && ValidPairing(events, pairs)
    ensures forall e :: e in Ends(SeenAll(records)) <==> 0 <= e < |records| && IsEnd(records[e])
    ensures forall e :: e in pairs ==> 0 <= e < |records| && 0 <= pairs[e] < |records| &&
                                       CanClose(records[e], records[pairs[e]])
  {
    var events := SeenAll(records);
    EndsMeaning(events);
    forall e | e in Pairing(events, Ends(events))
      ensures 0 <= e < |records| && 0 <= Pairing(events, Ends(events))[e] < |records| &&
              CanClose(records[e], records[Pairing(events, Ends(events))[e]])
    {
      PairingIsValid(events, Ends(events));
      ClosesIffCanClose(records, e, Pairing(events, Ends(events))[e]);
    }
    PairingIsValid(events, Ends(events));
    r, pairs := ResolveInOrder(records, events, Ends(events));
  }

  /** The pairing the resolving loop ends with. */
  function Pairs(records: seq<Record>): map<int, int> {
    Pairing(SeenAll(records), Ends(SeenAll(records)))
  }

  /** A span the pairing closes runs from its start to its end, forward. */
  lemma PairedSpansAreForward(records: seq<Record>, e: int)
    requires e in Pairs(records)
    ensures 0 <= e < |records| && records[e].window.None?
    ensures var b := BoundsOf(records, Pairs(records), e);
            && b.Bounds? && b.start == Some(Pairs(records)[e]) && b.span.start <= b.span.end
            && 0 <= Pairs(records)[e] < |records| && CanClose(records[e], records[Pairs(records)[e]])
            && b.span == Span(records[Pairs(records)[e]].ticks.value, records[e].ticks.value)
  {
    var events := SeenAll(records);
    PairingIsValid(events, Ends(events));
    assert Closes(events, e, Pairs(records)[e]);
    ClosesIffCanClose(records, e, Pairs(records)[e]);
  }

  /** A window of the end's own is taken as it is. */
  lemma WindowWins(records: seq<Record>, e: int)
    requires 0 <= e < |records| && records[e].window.Some?
    ensures e !in Pairs(records)
    ensures BoundsOf(records, Pairs(records), e) == Bounds(None, records[e].window.value)
  {
    if e in Pairs(records) {
      PairedSpansAreForward(records, e);
    }
  }

  /** Among the starts that can close it and are still unused when its turn comes, an end takes one whose
    * text is the last; and it stays open only if there is none. */
  lemma TakesTheLastFree(records: seq<Record>, order: seq<int>, i: nat)
    requires order == Ends(SeenAll(records)) && i < |order| && 0 <= order[i] < |records|
    ensures var e, used, m := order[i], Pairing(SeenAll(records), order[..i]).Values, Pairs(records);
            && (e in m ==> m[e] !in used && 0 <= m[e] < |records| && CanClose(records[e], records[m[e]]))
            && (e in m ==>
                  forall s :: 0 <= s < |records| && s !in used && CanClose(records[e], records[s]) ==>
                                records[s].text <= records[m[e]].text)
            && (e !in m ==> forall s :: 0 <= s < |records| && CanClose(records[e], records[s]) ==> s in used)
  {
    var events := SeenAll(records);
    var e, used := order[i], Pairing(events, order[..i]).Values;
    EndsMeaning(events);
    PairingPrefix(events, order, i + 1);
    assert order[..i + 1][..i] == order[..i] && e in order[..i + 1] && e !in order[..i];
    CandidateMeaning(events, used, e);
    forall s | 0 <= s < |records| && CanClose(records[e], records[s]) ensures Closes(events, e, s) {
      ClosesIffCanClose(records, e, s);
    }
    if e in Pairs(records) {
      ClosesIffCanClose(records, e, Pairs(records)[e]);
    }
  }

  lemma {:induction false} UnresolvedAreOpen(records: seq<Record>, pairs: map<int, int>, order: seq<int>, e: int)
    requires forall k :: 0 <= k < |order| ==> 0 <= order[k] < |records|
    ensures e in FileAll(records, pairs, order).unresolved <==>
            e in order && 0 <= e < |records| && BoundsOf(records, pairs, e).Open?
  {
    if order != [] {
      UnresolvedAreOpen(records, pairs, order[..|order| - 1], e);
      assert order == order[..|order| - 1] + [order[|order| - 1]];
    }
  }

  lemma OpenIffUnpaired(records: seq<Record>, pairs: map<int, int>, e: int)
    requires pairs == Pairs(records) && 0 <= e < |records|
    ensures BoundsOf(records, pairs, e).Open? <==> records[e].window.None? && e !in pairs
  {
    if e in pairs {
      PairedSpansAreForward(records, e);
    }
  }

  /** The unresolved ends are exactly those with neither a window of their own nor a partner. */
  lemma UnresolvedExactly(records: seq<Record>, order: seq<int>, pairs: map<int, int>, e: int)
    requires order == Ends(SeenAll(records)) && pairs == Pairs(records)
    requires forall k :: 0 <= k < |order| ==> 0 <= order[k] < |records|
    ensures e in FileAll(records, pairs, order).unresolved <==>
            e in order && 0 <= e < |records| && records[e].window.None? && e !in pairs
  {
    UnresolvedAreOpen(records, pairs, order, e);
    if 0 <= e < |records| {
      OpenIffUnpaired(records, pairs, e);
    }
  }

  /** If the ends of each identity are in order, no pairing that respects identities, time and single use
    * of starts resolves more ends. */
  lemma ResolvesMost(records: seq<Record>, p: map<int, int>)
    requires forall slot :: EndsInOrder(SeenAll(records), slot)
    requires ValidPairing(SeenAll(records), p)
    ensures |p| <= |Pairs(records)|
  {
    GreedyIsMaximum(SeenAll(records));
  }
}
