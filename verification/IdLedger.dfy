/** The next-id ledger of scripts/sdd/id_ledger.py and how it is seeded. */
module IdLedger {
  import opened Collections
  import opened Text

  datatype Kind = Task | Feature

  datatype Ledger = Ledger(nextTask: int, nextFeature: int, updatedAt: string, updatedBy: string)
  {
    function Next(kind: Kind): int {
      match kind
      case Task => nextTask
      case Feature => nextFeature
    }
  }

  // ---------------------------------------------------------------------
  // Bootstrap
  // ---------------------------------------------------------------------

  /** An index file: its header id and its task ids; a None task id is one that is not text. */
  datatype IndexDoc = IndexDoc(orphans: bool, featureId: Option<string>, taskIds: seq<Option<string>>)

  function LeadingDigits(s: string): (r: string)
    ensures r <= s && forall i :: 0 <= i < |r| ==> '0' <= r[i] <= '9'
  {
    if s != "" && '0' <= s[0] <= '9' then
      var rest := LeadingDigits(s[1..]);
      assert [s[0]] + rest <= [s[0]] + s[1..];
      [s[0]] + rest
    else ""
  }

  /** The number a text starts with after the prefix, as the regular expressions read it. */
  function NumberAfter(prefix: string, s: string): Option<int> {
    if prefix <= s && LeadingDigits(s[|prefix|..]) != "" then ParseInt(LeadingDigits(s[|prefix|..]), 10) else None
  }

  predicate AllDigits(s: string) {
    forall i :: 0 <= i < |s| ==> '0' <= s[i] <= '9'
  }

  predicate StartsWithDigit(s: string) {
    s != "" && '0' <= s[0] <= '9'
  }

  lemma {:induction false} LeadingDigitsAre(digits: string, rest: string)
    requires AllDigits(digits) && !StartsWithDigit(rest)
    ensures LeadingDigits(digits + rest) == digits
  {
    if digits == "" {
      assert digits + rest == rest;
    } else {
      assert (digits + rest)[1..] == digits[1..] + rest;
      LeadingDigitsAre(digits[1..], rest);
    }
  }

  function Zeros(k: nat): (s: string)
    ensures |s| == k && forall i :: 0 <= i < k ==> s[i] == '0'
  {
    seq(k, _ => '0')
  }

  lemma {:induction false} ZerosValue(k: nat)
    requires k > 0
    ensures DigitsValue(Zeros(k), 10) == Some(0)
  {
    if k > 1 {
      assert Zeros(k)[..k - 1] == Zeros(k - 1);
      ZerosValue(k - 1);
    }
  }

  lemma {:induction false} PaddedValue(k: nat, n: nat)
    ensures DigitsValue(Zeros(k) + NatText(n), 10) == Some(n)
  {
    var s := Zeros(k) + NatText(n);
    if n < 10 {
      assert s[..|s| - 1] == Zeros(k);
      if k > 0 {
        ZerosValue(k);
      }
    } else {
      assert s[..|s| - 1] == Zeros(k) + NatText(n / 10);
      assert s[|s| - 2] == NatText(n / 10)[|NatText(n / 10)| - 1];
      PaddedValue(k, n / 10);
    }
  }

  lemma DigitsParse(digits: string)
    requires digits != "" && AllDigits(digits)
    ensures ParseInt(digits, 10) == DigitsValue(digits, 10)
  {
    StripFixed(digits);
  }

  /** Reading inverts printing: after the prefix the number is found whatever follows it, and leading
    * zeros do not matter. */
  lemma ReadsPrinted(prefix: string, k: nat, n: nat, rest: string)
    requires !StartsWithDigit(rest)
    ensures NumberAfter(prefix, prefix + Zeros(k) + NatText(n) + rest) == Some(n)
  {
    var digits := Zeros(k) + NatText(n);
    var s := prefix + Zeros(k) + NatText(n) + rest;
    assert s == prefix + (digits + rest);
    assert s[|prefix|..] == digits + rest;
    assert AllDigits(digits);
    LeadingDigitsAre(digits, rest);
    PaddedValue(k, n);
    DigitsParse(digits);
  }

  /** And nothing else is read: a number is found only after the prefix, as all the digits there. */
  lemma ReadsOnlyNumbers(prefix: string, s: string)
    ensures NumberAfter(prefix, s).Some? <==> prefix <= s && StartsWithDigit(s[|prefix|..])
    ensures NumberAfter(prefix, s).Some? ==>
              exists digits, rest :: s == prefix + digits + rest && digits != "" && AllDigits(digits) &&
                                     !StartsWithDigit(rest) &&
                                     NumberAfter(prefix, s) == DigitsValue(digits, 10)
  {
    if prefix <= s && StartsWithDigit(s[|prefix|..]) {
      var tail := s[|prefix|..];
      var digits := LeadingDigits(tail);
      var rest := tail[|digits|..];
      DigitsParse(digits);
      DigitsHaveValue(digits);
      LeadingDigitsEnd(tail);
      assert s == prefix + digits + rest;
    }
  }

  lemma {:induction false} LeadingDigitsEnd(s: string)
    ensures !StartsWithDigit(s[|LeadingDigits(s)|..])
  {
    if StartsWithDigit(s) {
      LeadingDigitsEnd(s[1..]);
      assert s[1..][|LeadingDigits(s[1..])|..] == s[|LeadingDigits(s)|..];
    }
  }

  lemma {:induction false} DigitsHaveValue(digits: string)
    requires digits != "" && AllDigits(digits)
    ensures DigitsValue(digits, 10).Some?
  {
    if |digits| > 1 {
      DigitsHaveValue(digits[..|digits| - 1]);
    }
  }

  function Number(id: Option<string>, prefix: string): Option<int> {
    if id.Some? then NumberAfter(prefix, id.value) else None
  }

  function TaskNumber(id: Option<string>): Option<int> {
    Number(id, "TASK-")
  }

  /** The feature id an index file contributes: none for the orphan bucket or an unreadable file. */
  function FeatureNumber(doc: Option<IndexDoc>): Option<int> {
    if doc.None? || doc.value.orphans then None else Number(doc.value.featureId, "FEAT-")
  }

  function TaskIds(doc: Option<IndexDoc>): seq<Option<string>> {
    if doc.Some? then doc.value.taskIds else []
  }

  function Numbers(spec: Option<seq<nat>>): seq<nat> {
    if spec.Some? then spec.value else []
  }

  function Itself(n: nat): Option<int> {
    Some(n)
  }

  ghost predicate Occurs<T>(items: seq<T>, number: T -> Option<int>, n: int) {
    exists i :: 0 <= i < |items| && number(items[i]) == Some(n)
  }

  ghost predicate OccursIn<S, T>(files: seq<S>, items: S -> seq<T>, number: T -> Option<int>, n: int) {
    exists i :: 0 <= i < |files| && Occurs(items(files[i]), number, n)
  }

  /** Task id n occurs in a readable index file. */
  ghost predicate TaskInUse(index: seq<Option<IndexDoc>>, n: int) {
    OccursIn(index, TaskIds, TaskNumber, n)
  }

  /** Feature n occurs in an index header or in a header line of a spec. */
  ghost predicate FeatureInUse(index: seq<Option<IndexDoc>>, specs: seq<Option<seq<nat>>>, n: int) {
    Occurs(index, FeatureNumber, n) || OccursIn(specs, Numbers, Itself, n)
  }

  /** Which task ids count: every one in a readable file, the orphan bucket included, that reads TASK-n. */
  lemma TaskInUseIff(index: seq<Option<IndexDoc>>, n: int)
    ensures TaskInUse(index, n) <==>
            exists i, text :: 0 <= i < |index| && index[i].Some? && Some(text) in index[i].value.taskIds &&
                              NumberAfter("TASK-", text) == Some(n)
  {
    if TaskInUse(index, n) {
      var i :| 0 <= i < |index| && Occurs(TaskIds(index[i]), TaskNumber, n);
      var j :| 0 <= j < |TaskIds(index[i])| && TaskNumber(TaskIds(index[i])[j]) == Some(n);
      var text := TaskIds(index[i])[j].value;
      assert Some(text) in index[i].value.taskIds && NumberAfter("TASK-", text) == Some(n);
    }
    if i, text :| 0 <= i < |index| && index[i].Some? && Some(text) in index[i].value.taskIds &&
                  NumberAfter("TASK-", text) == Some(n) {
      var j :| 0 <= j < |TaskIds(index[i])| && TaskIds(index[i])[j] == Some(text);
      assert Occurs(TaskIds(index[i]), TaskNumber, n);
    }
  }

  /** Which features count: the header ids of readable files other than the orphan bucket, and the numbers in
    * the header lines of readable specs. */
  lemma FeatureInUseIff(index: seq<Option<IndexDoc>>, specs: seq<Option<seq<nat>>>, n: int)
    ensures FeatureInUse(index, specs, n) <==>
            || (exists i, text :: 0 <= i < |index| && index[i].Some? && !index[i].value.orphans &&
                                  index[i].value.featureId == Some(text) && NumberAfter("FEAT-", text) == Some(n))
            || (exists i, m: nat :: 0 <= i < |specs| && specs[i].Some? && m in specs[i].value && m == n)
  {
    if i :| 0 <= i < |index| && FeatureNumber(index[i]) == Some(n) {
      var text := index[i].value.featureId.value;
      assert index[i].value.featureId == Some(text) && NumberAfter("FEAT-", text) == Some(n);
    }
    if i, text :| 0 <= i < |index| && index[i].Some? && !index[i].value.orphans &&
                  index[i].value.featureId == Some(text) && NumberAfter("FEAT-", text) == Some(n) {
      assert FeatureNumber(index[i]) == Some(n);
    }
    if i :| 0 <= i < |specs| && Occurs(Numbers(specs[i]), Itself, n) {
      var j :| 0 <= j < |Numbers(specs[i])| && Itself(Numbers(specs[i])[j]) == Some(n);
      assert Numbers(specs[i])[j] in specs[i].value;
    }
    if i, m: nat :| 0 <= i < |specs| && specs[i].Some? && m in specs[i].value && m == n {
      var j :| 0 <= j < |Numbers(specs[i])| && Numbers(specs[i])[j] == m;
      assert Itself(Numbers(specs[i])[j]) == Some(n) && Occurs(Numbers(specs[i]), Itself, n);
    }
  }

  predicate AtMost(n: Option<int>, max: int) {
    n.Some? ==> n.value <= max
  }

  /** One scanning loop: the highest number among the items, or start if none is higher. */
  method Highest<T>(items: seq<T>, number: T -> Option<int>, start: int) returns (max: int)
    ensures start <= max && (max == start || Occurs(items, number, max))
    ensures forall n :: Occurs(items, number, n) ==> n <= max
  {
    max := start;
    for j := 0 to |items|
      invariant start <= max && (max == start || Occurs(items, number, max))
      invariant forall k :: 0 <= k < j ==> AtMost(number(items[k]), max)
    {
      var n := number(items[j]);
      if n.Some? && max < n.value {
        max := n.value;
      }
    }
  }

  /** The same over the items of several files. */
  method HighestIn<S, T>(files: seq<S>, items: S -> seq<T>, number: T -> Option<int>, start: int) returns (max: int)
    ensures start <= max && (max == start || OccursIn(files, items, number, max))
    ensures forall n :: OccursIn(files, items, number, n) ==> n <= max
  {
    max := start;
    for i := 0 to |files|
      invariant start <= max && (max == start || OccursIn(files, items, number, max))
      invariant forall k, n :: 0 <= k < i && Occurs(items(files[k]), number, n) ==> n <= max
    {
      ghost var before := max;
      max := Highest(items(files[i]), number, max);
      assert max == before || OccursIn(files, items, number, max);
    }
  }

  /** The highest task number in use, 0 if there is none. Files that cannot be read are skipped. */
  method MaxTaskId(index: seq<Option<IndexDoc>>) returns (max: int)
    ensures max >= 0 && (max == 0 || TaskInUse(index, max))
    ensures forall n :: TaskInUse(index, n) ==> n <= max
  {
    max := HighestIn(index, TaskIds, TaskNumber, 0);
  }

  /** The highest feature number in use; specs lists the numbers in each spec's header lines. */
  method MaxFeatureId(index: seq<Option<IndexDoc>>, specs: seq<Option<seq<nat>>>) returns (max: int)
    ensures max >= 0 && (max == 0 || FeatureInUse(index, specs, max))
    ensures forall n :: FeatureInUse(index, specs, n) ==> n <= max
  {
    var fromIndex := Highest(index, FeatureNumber, 0);
    max := HighestIn(specs, Numbers, Itself, fromIndex);
  }

  /** A ledger strictly ahead of every id in use, and by no more than one. */
  ghost predicate Seeds(ledger: Ledger, index: seq<Option<IndexDoc>>, specs: seq<Option<seq<nat>>>) {
    && ledger.nextTask >= 1 && ledger.nextFeature >= 1
    && (forall n :: TaskInUse(index, n) ==> n < ledger.nextTask)
    && (forall n :: FeatureInUse(index, specs, n) ==> n < ledger.nextFeature)
    && (ledger.nextTask == 1 || TaskInUse(index, ledger.nextTask - 1))
    && (ledger.nextFeature == 1 || FeatureInUse(index, specs, ledger.nextFeature - 1))
  }

  method Bootstrap(index: seq<Option<IndexDoc>>, specs: seq<Option<seq<nat>>>, now: string) returns (ledger: Ledger)
    ensures Seeds(ledger, index, specs)
    ensures ledger.updatedAt == now && ledger.updatedBy == "bootstrap"
  {
    var task := MaxTaskId(index);
    var feature := MaxFeatureId(index, specs);
    ledger := Ledger(task + 1, feature + 1, now, "bootstrap");
  }
}
