/** The string operations the signature schemes are built from, on ASCII text: strip, lower, split,
  * partition, decimal printing and the grammar accepted by the built-in int().
  */
module Text {
  import opened Collections

  predicate IsSpace(c: char) {
    c == ' ' || 9 <= c as int <= 13 || 28 <= c as int <= 31
  }

  function StripLeft(s: string): string {
    if s != "" && IsSpace(s[0]) then StripLeft(s[1..]) else s
  }

  function StripRight(s: string): string {
    if s != "" && IsSpace(s[|s| - 1]) then StripRight(s[..|s| - 1]) else s
  }

  function Strip(s: string): string {
    StripRight(StripLeft(s))
  }

  predicate AllSpace(s: string) {
    forall i :: 0 <= i < |s| ==> IsSpace(s[i])
  }

  predicate NoSpaceAtEnds(s: string) {
    s == "" || (!IsSpace(s[0]) && !IsSpace(s[|s| - 1]))
  }

  lemma {:induction false} StripLeftTakes(s: string) returns (a: string)
    ensures AllSpace(a) && s == a + StripLeft(s)
    ensures StripLeft(s) == "" || !IsSpace(StripLeft(s)[0])
  {
    a := "";
    if s != "" && IsSpace(s[0]) {
      a := StripLeftTakes(s[1..]);
      a := [s[0]] + a;
    }
  }

  lemma {:induction false} StripRightTakes(s: string) returns (b: string)
    ensures AllSpace(b) && s == StripRight(s) + b
    ensures StripRight(s) == "" || !IsSpace(StripRight(s)[|StripRight(s)| - 1])
  {
    b := "";
    if s != "" && IsSpace(s[|s| - 1]) {
      b := StripRightTakes(s[..|s| - 1]);
      b := b + [s[|s| - 1]];
    }
  }

  /** Stripping takes off all the white space at both ends, and nothing else. */
  lemma StripTakesSpace(s: string) returns (a: string, b: string)
    ensures AllSpace(a) && AllSpace(b) && s == a + Strip(s) + b && NoSpaceAtEnds(Strip(s))
  {
    a := StripLeftTakes(s);
    b := StripRightTakes(StripLeft(s));
    var t := Strip(s);
    if t != "" {
      assert StripLeft(s)[0] == t[0];
    }
  }

  function LowerChar(c: char): char {
    if 'A' <= c <= 'Z' then (c as int + 32) as char else c
  }

  function Lower(s: string): (r: string)
    ensures |r| == |s| && forall i :: 0 <= i < |s| ==> r[i] == LowerChar(s[i])
  {
    seq(|s|, i requires 0 <= i < |s| => LowerChar(s[i]))
  }

  /** Two characters are the same but for their case. */
  predicate SameButCase(c: char, d: char) {
    || c == d
    || ('a' <= c <= 'z' && d as int == c as int - 32)
    || ('A' <= c <= 'Z' && d as int == c as int + 32)
  }

  /** Lowering identifies exactly the texts that are the same but for case. */
  lemma LowerMerges(s: string, t: string)
    ensures Lower(s) == Lower(t) <==> |s| == |t| && forall i :: 0 <= i < |s| ==> SameButCase(s[i], t[i])
  {
    if Lower(s) == Lower(t) {
      forall i | 0 <= i < |s| ensures SameButCase(s[i], t[i]) {
        assert Lower(s)[i] == Lower(t)[i];
      }
    }
  }

  /** Lower-case letters and digits: text that strip and lower leave alone. */
  predicate IsPlain(s: string) {
    forall i :: 0 <= i < |s| ==> 'a' <= s[i] <= 'z' || '0' <= s[i] <= '9'
  }

  lemma PlainIsFixed(s: string)
    requires IsPlain(s)
    ensures Strip(s) == s && Lower(s) == s
  {
  }

  // ---------------------------------------------------------------------
  // split and partition
  // ---------------------------------------------------------------------

  function Find(s: string, c: char): (k: nat)
    ensures k <= |s| && c !in s[..k] && (k < |s| ==> s[k] == c)
  {
    if s == "" || s[0] == c then 0
    else
      var k := Find(s[1..], c);
      assert s[..k + 1] == [s[0]] + s[1..][..k];
      k + 1
  }

  /** The part of a dotted name before its first dot. */
  function BeforeDot(s: string): string {
    s[..Find(s, '.')]
  }

  /** str.partition: the text before the first separator, whether there is one, the text after. */
  function Partition(s: string, c: char): (string, bool, string) {
    var k := Find(s, c);
    if k < |s| then (s[..k], true, s[k + 1..]) else (s, false, "")
  }

  lemma FindUnique(s: string, c: char, k: nat)
    requires k < |s| && s[k] == c && c !in s[..k]
    ensures Find(s, c) == k
  {
  }

  lemma PartitionAt(key: string, c: char, value: string)
    requires c !in key
    ensures Partition(key + [c] + value, c) == (key, true, value)
  {
    var s := key + [c] + value;
    assert s[..|key|] == key && s[|key|] == c && s[|key| + 1..] == value;
    FindUnique(s, c, |key|);
  }

  lemma PartitionNone(s: string, c: char)
    requires c !in s
    ensures Partition(s, c) == (s, false, "")
  {
  }

  function Split(s: string, c: char): (parts: seq<string>)
    ensures parts != []
    decreases |s|
  {
    var (before, found, after) := Partition(s, c);
    if found then [before] + Split(after, c) else [s]
  }

  function Join(parts: seq<string>, c: char): string
    requires parts != []
  {
    if |parts| == 1 then parts[0] else parts[0] + [c] + Join(parts[1..], c)
  }

  lemma {:induction false} SplitJoin(parts: seq<string>, c: char)
    requires parts != [] && forall i :: 0 <= i < |parts| ==> c !in parts[i]
    ensures Split(Join(parts, c), c) == parts
  {
    if |parts| == 1 {
      PartitionNone(parts[0], c);
    } else {
      var rest := Join(parts[1..], c);
      SplitJoin(parts[1..], c);
      assert Partition(parts[0] + [c] + rest, c) == (parts[0], true, rest) by {
        PartitionAt(parts[0], c, rest);
      }
      assert Join(parts, c) == parts[0] + [c] + rest;
      assert Split(Join(parts, c), c) == [parts[0]] + Split(rest, c);
    }
  }

  /** Splitting cuts at every separator and only there. */
  lemma {:induction false} JoinSplit(s: string, c: char)
    ensures Join(Split(s, c), c) == s
    ensures forall i :: 0 <= i < |Split(s, c)| ==> c !in Split(s, c)[i]
    decreases |s|
  {
    var (before, found, after) := Partition(s, c);
    if found {
      JoinSplit(after, c);
      assert s == before + [c] + after;
      assert Split(s, c)[1..] == Split(after, c);
    }
  }

  /** What partitioning finds is the one way to cut the text at its first separator. */
  lemma PartitionIff(s: string, c: char, before: string, after: string)
    ensures Partition(s, c) == (before, true, after) <==> c !in before && s == before + [c] + after
    ensures Partition(s, c).1 <==> c in s
  {
    if c !in before && s == before + [c] + after {
      PartitionAt(before, c, after);
    }
    var k := Find(s, c);
    if k < |s| {
      assert s == s[..k] + [c] + s[k + 1..];
    } else {
      assert s[..k] == s;
    }
  }

  // ---------------------------------------------------------------------
  // int() and decimal text
  // ---------------------------------------------------------------------

  function DigitValue(c: char): (v: nat)
    ensures v <= 16
  {
    if '0' <= c <= '9' then c as int - '0' as int
    else if 'a' <= c <= 'f' then c as int - 'a' as int + 10
    else if 'A' <= c <= 'F' then c as int - 'A' as int + 10
    else 16
  }

  /** A digit string, with single underscores allowed between digits. */
  function DigitsValue(s: string, radix: nat): Option<nat> {
    if s == "" || DigitValue(s[|s| - 1]) >= radix then None
    else if |s| == 1 then Some(DigitValue(s[0]))
    else
      var rest := if s[|s| - 2] == '_' then s[..|s| - 2] else s[..|s| - 1];
      match DigitsValue(rest, radix)
      case None => None
      case Some(v) => Some(v * radix + DigitValue(s[|s| - 1]))
  }

  function DropHexPrefix(s: string): string {
    if |s| >= 2 && s[0] == '0' && (s[1] == 'x' || s[1] == 'X') then
      if |s| >= 3 && s[2] == '_' then s[3..] else s[2..]
    else s
  }

  /** int(s, radix) for radix 10 or 16; None where the built-in raises. */
  function ParseInt(s: string, radix: nat): Option<int> {
    var t := Strip(s);
    var negative := t != "" && t[0] == '-';
    var unsigned := if t != "" && (t[0] == '-' || t[0] == '+') then t[1..] else t;
    match DigitsValue(if radix == 16 then DropHexPrefix(unsigned) else unsigned, radix)
    case None => None
    case Some(v) => Some(if negative then 0 - v else v)
  }

  function DigitChar(d: nat): (c: char)
    requires d < 10
    ensures '0' <= c <= '9' && DigitValue(c) == d
  {
    ('0' as int + d) as char
  }

  function NatText(n: nat): (s: string)
    ensures s != "" && forall i :: 0 <= i < |s| ==> '0' <= s[i] <= '9'
  {
    if n < 10 then [DigitChar(n)] else NatText(n / 10) + [DigitChar(n % 10)]
  }

  /** str(n). */
  function IntText(n: int): string {
    if n < 0 then "-" + NatText(0 - n) else NatText(n)
  }

  lemma {:induction false} NatTextValue(n: nat)
    ensures DigitsValue(NatText(n), 10) == Some(n)
  {
    if n >= 10 {
      var init := NatText(n / 10);
      NatTextValue(n / 10);
      var s := init + [DigitChar(n % 10)];
      assert s[..|s| - 1] == init;
      assert s[|s| - 2] == init[|init| - 1] != '_';
    }
  }

  lemma StripFixed(s: string)
    requires s != "" && !IsSpace(s[0]) && !IsSpace(s[|s| - 1])
    ensures Strip(s) == s
  {
  }

  lemma IntTextShape(n: int)
    ensures var s := IntText(n);
            s != "" && !IsSpace(s[0]) && !IsSpace(s[|s| - 1]) && ',' !in s && '=' !in s
  {
    var digits := NatText(if n < 0 then 0 - n else n);
    assert ',' !in digits && '=' !in digits;
    if n < 0 {
      assert IntText(n)[|digits|] == digits[|digits| - 1];
    }
  }

  /** int(str(n)) is n. */
  lemma IntTextParses(n: int)
    ensures Strip(IntText(n)) == IntText(n)
    ensures ParseInt(IntText(n), 10) == Some(n)
    ensures ',' !in IntText(n) && '=' !in IntText(n) && IntText(n) != ""
  {
    IntTextShape(n);
    StripFixed(IntText(n));
    var k: nat := if n < 0 then 0 - n else n;
    var digits := NatText(k);
    NatTextValue(k);
    if n < 0 {
      assert IntText(n)[1..] == digits;
    } else {
      assert digits[0] != '-' && digits[0] != '+';
    }
  }

  /** int(value, 16) succeeds on a non-empty text. */
  predicate IsHex(s: string) {
    s != "" && ParseInt(s, 16).Some?
  }

  /** What hexdigest() returns: lower-case hexadecimal digits. */
  predicate IsLowerHex(s: string) {
    s != "" && forall i :: 0 <= i < |s| ==> '0' <= s[i] <= '9' || 'a' <= s[i] <= 'f'
  }

  lemma {:induction false} LowerHexDigits(s: string)
    requires IsLowerHex(s)
    ensures DigitsValue(s, 16).Some?
  {
    if |s| > 1 {
      LowerHexDigits(s[..|s| - 1]);
    }
  }

  predicate IsHexDigit(c: char) {
    '0' <= c <= '9' || 'a' <= c <= 'f' || 'A' <= c <= 'F'
  }

  lemma {:induction false} HexDigitsHaveValue(s: string)
    requires s != "" && forall i :: 0 <= i < |s| ==> IsHexDigit(s[i])
    ensures DigitsValue(s, 16).Some?
  {
    if |s| > 1 {
      HexDigitsHaveValue(s[..|s| - 1]);
    }
  }

  /** Hexadecimal digits in either case are accepted. */
  lemma HexDigitsAreHex(s: string)
    requires s != "" && forall i :: 0 <= i < |s| ==> IsHexDigit(s[i])
    ensures IsHex(s)
  {
    StripFixed(s);
    assert DropHexPrefix(s) == s;
    HexDigitsHaveValue(s);
  }

  lemma LowerHexIsHex(s: string)
    requires IsLowerHex(s)
    ensures IsHex(s) && IsPlain(s) && ',' !in s && '=' !in s
  {
    assert IsPlain(s);
    PlainIsFixed(s);
    assert DropHexPrefix(s) == s;
    LowerHexDigits(s);
  }

  lemma {:induction false} DigitsHaveNo(s: string, radix: nat, c: char)
    requires DigitsValue(s, radix).Some? && radix <= 16 && DigitValue(c) == 16 && c != '_'
    ensures c !in s
  {
    if |s| > 1 {
      var rest := if s[|s| - 2] == '_' then s[..|s| - 2] else s[..|s| - 1];
      DigitsHaveNo(rest, radix, c);
      forall i | 0 <= i < |s| ensures s[i] != c {
        if i < |rest| {
          assert s[i] == rest[i];
        }
      }
    }
  }

  lemma {:induction false} StripLeftKeeps(s: string, c: char)
    requires c in s && !IsSpace(c)
    ensures c in StripLeft(s)
  {
    if s != "" && IsSpace(s[0]) {
      StripLeftKeeps(s[1..], c);
    }
  }

  lemma {:induction false} StripRightKeeps(s: string, c: char)
    requires c in s && !IsSpace(c)
    ensures c in StripRight(s)
  {
    if s != "" && IsSpace(s[|s| - 1]) {
      StripRightKeeps(s[..|s| - 1], c);
    }
  }

  lemma StripKeeps(s: string, c: char)
    requires c in s && !IsSpace(c)
    ensures c in Strip(s)
  {
    StripLeftKeeps(s, c);
    StripRightKeeps(StripLeft(s), c);
  }

  lemma DropHexPrefixKeeps(s: string, c: char)
    requires c in s && c != '0' && c != 'x' && c != 'X' && c != '_'
    ensures c in DropHexPrefix(s)
  {
    var d := DropHexPrefix(s);
    var i :| 0 <= i < |s| && s[i] == c;
    assert i >= |s| - |d|;
    assert d[i - (|s| - |d|)] == c;
  }

  /** No hexadecimal text holds a comma. */
  lemma HexHasNoComma(s: string)
    requires IsHex(s)
    ensures ',' !in s
  {
    if ',' in s {
      StripKeeps(s, ',');
      var t := Strip(s);
      var u := if t != "" && (t[0] == '-' || t[0] == '+') then t[1..] else t;
      var i :| 0 <= i < |t| && t[i] == ',';
      assert u[i - (|t| - |u|)] == ',';
      DropHexPrefixKeeps(u, ',');
      DigitsHaveNo(DropHexPrefix(u), 16, ',');
    }
  }

  lemma {:induction false} StripRightIdem(s: string)
    ensures StripRight(StripRight(s)) == StripRight(s)
    ensures StripRight(s) == "" || StripRight(s) <= s
  {
    if s != "" && IsSpace(s[|s| - 1]) {
      StripRightIdem(s[..|s| - 1]);
    }
  }

  lemma {:induction false} StripLeftClean(s: string)
    ensures StripLeft(s) == "" || !IsSpace(StripLeft(s)[0])
  {
    if s != "" && IsSpace(s[0]) {
      StripLeftClean(s[1..]);
    }
  }

  lemma StripIdem(s: string)
    ensures Strip(Strip(s)) == Strip(s)
  {
    StripLeftClean(s);
    StripRightIdem(StripLeft(s));
    var t := Strip(s);
    if t != "" {
      assert t[0] == StripLeft(s)[0];
    }
  }

  lemma {:induction false} StripRightCons(c: char, h: string)
    ensures StripRight([c] + h) ==
            if StripRight(h) != "" then [c] + StripRight(h) else if IsSpace(c) then "" else [c]
  {
    var s := [c] + h;
    if h != "" {
      assert s[..|s| - 1] == [c] + h[..|h| - 1];
      if IsSpace(h[|h| - 1]) {
        StripRightCons(c, h[..|h| - 1]);
      }
    } else {
      assert s[..0] == "";
    }
  }

  /** Trimming the two ends commutes. */
  lemma {:induction false} StripCommutes(h: string)
    ensures StripLeft(StripRight(h)) == Strip(h)
  {
    if h != "" {
      assert h == [h[0]] + h[1..];
      StripRightCons(h[0], h[1..]);
      if IsSpace(h[0]) {
        StripCommutes(h[1..]);
      }
    }
  }

  lemma StripOfStripRight(h: string)
    ensures Strip(StripRight(h)) == Strip(h)
  {
    StripCommutes(h);
    StripIdem(h);
    StripRightIdem(StripLeft(h));
  }
}
