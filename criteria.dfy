/**
  The alarm-criteria parser (`_get_criteria`): the rendered criteria text is
  split into lines; on each line the first parenthesised clause is located,
  and a clause that starts with a status name yields one record
  {status, message, condition} while any other clause becomes the condition
  waiting for the next status clause.
 */
module Criteria {
  import opened Wrappers

  /** One trigger of an alarm, as `_get_criteria` yields it. */
  datatype Record = Record(status: string, message: string, condition: string)

  const StatusNames: seq<string> := ["CRITICAL", "WARNING", "OK"]

  /** The condition given to a status clause that no condition clause precedes. */
  const DefaultCondition: string := "default"

  // ---------------------------------------------------------------------------
  // String helpers with Python's semantics
  // ---------------------------------------------------------------------------

  /** `s.find(c)`: the index of the first occurrence of `c`, or -1. */
  function Find(s: string, c: char): (r: int)
    ensures r == -1 <==> c !in s
    ensures r != -1 ==> 0 <= r < |s| && s[r] == c
    decreases |s|
  {
    if s == [] then -1
    else if s[0] == c then 0
    else
      var r := Find(s[1..], c);
      assert s == [s[0]] + s[1..];
      if r == -1 then -1 else r + 1
  }

  /** The index Find reports is the first occurrence. */
  lemma {:induction false} FindIsFirst(s: string, c: char)
    ensures Find(s, c) != -1 ==> c !in s[..Find(s, c)]
    decreases |s|
  {
    if s != [] && s[0] != c {
      FindIsFirst(s[1..], c);
      var r := Find(s[1..], c);
      if r != -1 {
        assert s[..r + 1] == [s[0]] + s[1..][..r];
      }
    }
  }

  /** `s.startswith(p)`. */
  predicate StartsWith(s: string, p: string) {
    |p| <= |s| && s[..|p|] == p
  }

  /** `str.isspace` for one character: the characters Python's `strip()` removes. */
  predicate IsSpace(c: char) {
    var n := c as int;
    (0x09 <= n <= 0x0D) || (0x1C <= n <= 0x20) || n == 0x85 || n == 0xA0 ||
    n == 0x1680 || (0x2000 <= n <= 0x200A) || n == 0x2028 || n == 0x2029 ||
    n == 0x202F || n == 0x205F || n == 0x3000
  }

  predicate AllSpace(s: string) {
    forall k :: 0 <= k < |s| ==> IsSpace(s[k])
  }

  /** `s.lstrip()`. */
  function LStrip(s: string): (r: string)
    decreases |s|
  {
    if s != [] && IsSpace(s[0]) then LStrip(s[1..]) else s
  }

  /** `s.rstrip()`. */
  function RStrip(s: string): (r: string)
    decreases |s|
  {
    if s != [] && IsSpace(s[|s| - 1]) then RStrip(s[..|s| - 1]) else s
  }

  /** LStrip drops the leading whitespace and nothing else. */
  lemma {:induction false} LStripSpec(s: string)
    ensures |LStrip(s)| <= |s| && LStrip(s) == s[|s| - |LStrip(s)|..]
    ensures AllSpace(s[..|s| - |LStrip(s)|])
    ensures LStrip(s) == [] || !IsSpace(LStrip(s)[0])
    decreases |s|
  {
    if s != [] && IsSpace(s[0]) {
      var t := s[1..];
      LStripSpec(t);
      var r := LStrip(t);
      var spaces := s[..|s| - |r|];
      forall k | 0 <= k < |spaces| ensures IsSpace(spaces[k]) {
        if k > 0 {
          assert spaces[k] == t[..|t| - |r|][k - 1];
        }
      }
    }
  }

  /** RStrip drops the trailing whitespace and nothing else. */
  lemma {:induction false} RStripSpec(s: string)
    ensures |RStrip(s)| <= |s| && RStrip(s) == s[..|RStrip(s)|]
    ensures AllSpace(s[|RStrip(s)|..])
    ensures RStrip(s) == [] || !IsSpace(RStrip(s)[|RStrip(s)| - 1])
    decreases |s|
  {
    if s != [] && IsSpace(s[|s| - 1]) {
      var t := s[..|s| - 1];
      RStripSpec(t);
      var r := RStrip(t);
      forall k | 0 <= k < |s| - |r| ensures IsSpace(s[|r|..][k]) {
        if k < |t| - |r| {
          assert s[|r|..][k] == t[|r|..][k];
        }
      }
    }
  }

  /** `s.strip()`. */
  function Strip(s: string): string {
    RStrip(LStrip(s))
  }

  /** `s[:-1]`: all but the last character (the empty string stays empty). */
  function DropLast(s: string): string {
    if s == [] then [] else s[..|s| - 1]
  }

  /** `s[1:-1]`: the string without its first and last characters (empty when shorter than two). */
  function TrimOuter(s: string): string {
    if |s| < 2 then [] else s[1..|s| - 1]
  }

  // ---------------------------------------------------------------------------
  // criteria.split("\n")
  // ---------------------------------------------------------------------------

  /** `s.split("\n")`: the pieces between newlines, at least one. */
  function Split(s: string): (lines: seq<string>)
    ensures |lines| >= 1
    decreases |s|
  {
    var i := Find(s, '\n');
    if i == -1 then [s] else [s[..i]] + Split(s[i + 1..])
  }

  /** `"\n".join(lines)`, the inverse of Split. */
  function Join(lines: seq<string>): string
    requires |lines| >= 1
    decreases |lines|
  {
    if |lines| == 1 then lines[0] else lines[0] + "\n" + Join(lines[1..])
  }

  lemma {:induction false} JoinSplit(s: string)
    ensures Join(Split(s)) == s
    ensures forall k :: 0 <= k < |Split(s)| ==> '\n' !in Split(s)[k]
    decreases |s|
  {
    var i := Find(s, '\n');
    FindIsFirst(s, '\n');
    if i != -1 {
      JoinSplit(s[i + 1..]);
      assert s == s[..i] + "\n" + s[i + 1..];
      var rest := Split(s[i + 1..]);
      assert Split(s)[1..] == rest;
    }
  }

  lemma {:induction false} SplitJoin(lines: seq<string>)
    requires |lines| >= 1
    requires forall k :: 0 <= k < |lines| ==> '\n' !in lines[k]
    ensures Split(Join(lines)) == lines
    decreases |lines|
  {
    if |lines| == 1 {
      assert Find(lines[0], '\n') == -1;
    } else {
      var s := Join(lines);
      var rest := Join(lines[1..]);
      assert s == lines[0] + "\n" + rest;
      FindAfter(lines[0], rest);
      assert s[..|lines[0]|] == lines[0];
      assert s[|lines[0]| + 1..] == rest;
      SplitJoin(lines[1..]);
    }
  }

  lemma FindAfter(a: string, b: string)
    requires '\n' !in a
    ensures Find(a + "\n" + b, '\n') == |a|
  {
    var s := a + "\n" + b;
    assert s[|a|] == '\n';
    FindIsFirst(s, '\n');
  }

  // ---------------------------------------------------------------------------
  // The CRITERIA regular expression  \(([^()]*|\([^()]*\))*\)
  // ---------------------------------------------------------------------------

  /** The nesting change a character makes. */
  function Delta(c: char): int {
    if c == '(' then 1 else if c == ')' then -1 else 0
  }

  /** The net nesting of `s[k..m]`. */
  function Depth(s: string, k: nat, m: nat): int
    requires k <= m <= |s|
    decreases m - k
  {
    if k == m then 0 else Delta(s[k]) + Depth(s, k + 1, m)
  }

  /**
    The language of the expression, at positions `[i, e)` of `s`: an opening
    parenthesis, a body in which parentheses nest at most one level deep and
    balance, and a closing parenthesis.
   */
  ghost predicate IsClause(s: string, i: nat, e: nat) {
    && i + 2 <= e <= |s|
    && s[i] == '(' && s[e - 1] == ')'
    && Balanced(s, i + 1, e - 1, 0)
  }

  /**
    The body `s[k..end]`, entered at nesting `depth`, never leaves the levels
    0 and 1 and ends at level 0.
   */
  ghost predicate Balanced(s: string, k: nat, end: nat, depth: int)
    requires k <= end <= |s|
  {
    && (forall m :: k <= m <= end ==> 0 <= depth + Depth(s, k, m) <= 1)
    && depth + Depth(s, k, end) == 0
  }

  /**
    The matcher after the opening parenthesis: `depth` is 0 at the outer level
    and 1 inside a nested group; the result is the end of the match.
   */
  function ScanFrom(s: string, k: nat, depth: nat): Option<nat>
    decreases |s| - k
  {
    if k >= |s| then None
    else if s[k] == ')' then (if depth == 0 then Some(k + 1) else ScanFrom(s, k + 1, 0))
    else if s[k] == '(' then (if depth == 0 then ScanFrom(s, k + 1, 1) else None)
    else ScanFrom(s, k + 1, depth)
  }

  /** The match of the expression anchored at `i`, by its end position. */
  function MatchAt(s: string, i: nat): Option<nat> {
    if i < |s| && s[i] == '(' then ScanFrom(s, i + 1, 0) else None
  }

  /** `CRITERIA.search(s)` from position `i`: the leftmost match, as (start, end). */
  function SearchFrom(s: string, i: nat): Option<(nat, nat)>
    decreases |s| - i
  {
    if i >= |s| then None
    else match MatchAt(s, i)
      case Some(e) => Some((i, e))
      case None => SearchFrom(s, i + 1)
  }

  lemma {:induction false} ScanFromIff(s: string, k: nat, depth: nat, e: nat)
    requires k <= |s| && depth <= 1
    ensures ScanFrom(s, k, depth) == Some(e) <==>
      k < e <= |s| && s[e - 1] == ')' && Balanced(s, k, e - 1, depth)
    decreases |s| - k
  {
    if k < |s| {
      if s[k] == ')' && depth == 0 {
        if k + 1 < e <= |s| {
          assert Depth(s, k, k + 1) == -1;
        }
      } else if s[k] == '(' && depth == 1 {
        if k + 1 < e <= |s| {
          assert Depth(s, k, k + 1) == 1;
        }
      } else {
        var d' := if s[k] == ')' then 0 else if s[k] == '(' then 1 else depth;
        assert depth + Delta(s[k]) == d';
        ScanFromIff(s, k + 1, d', e);
        if k + 1 < e <= |s| {
          assert forall m :: k + 1 <= m <= e - 1 ==> depth + Depth(s, k, m) == d' + Depth(s, k + 1, m);
          assert Depth(s, k, k) == 0;
          assert ScanFrom(s, k, depth) == ScanFrom(s, k + 1, d');
          if Balanced(s, k, e - 1, depth) {
            var k1 := k + 1;
            forall m | k1 <= m <= e - 1 ensures 0 <= d' + Depth(s, k1, m) <= 1 {
              assert depth + Depth(s, k, m) == d' + Depth(s, k1, m);
            }
          }
          if Balanced(s, k + 1, e - 1, d') {
            forall m | k <= m <= e - 1 ensures 0 <= depth + Depth(s, k, m) <= 1 {
              if m > k {
                assert depth + Depth(s, k, m) == d' + Depth(s, k + 1, m);
              }
            }
            assert Balanced(s, k, e - 1, depth);
          }
        } else if e == k + 1 {
          assert !Balanced(s, k, e - 1, depth) || s[k] != ')';
        }
      }
    }
  }

  /** A match at `i` ends at `e` exactly when `[i, e)` is in the expression's language. */
  lemma MatchAtIff(s: string, i: nat, e: nat)
    ensures MatchAt(s, i) == Some(e) <==> IsClause(s, i, e)
  {
    if i < |s| && s[i] == '(' {
      ScanFromIff(s, i + 1, 0, e);
    }
  }

  /** The search finds the leftmost position at which the language matches, or reports that none does. */
  lemma {:induction false} SearchLeftmost(s: string, i: nat)
    ensures SearchFrom(s, i).Some? ==>
      var (b, e) := SearchFrom(s, i).value;
      i <= b && IsClause(s, b, e) && forall b', e' :: i <= b' < b ==> !IsClause(s, b', e')
    ensures SearchFrom(s, i).None? ==> forall b', e' :: i <= b' ==> !IsClause(s, b', e')
    decreases |s| - i
  {
    if i < |s| {
      match MatchAt(s, i)
      case Some(e) =>
        MatchAtIff(s, i, e);
      case None =>
        forall e' ensures !IsClause(s, i, e') { MatchAtIff(s, i, e'); }
        SearchLeftmost(s, i + 1);
    } else {
      forall b', e' | i <= b' ensures !IsClause(s, b', e') { }
    }
  }

  /** The content of the first clause of a line with its outer parentheses stripped (`match.group(0)[1:-1]`). */
  function Clause(line: string): Option<string> {
    match SearchFrom(line, 0)
    case None => None
    case Some((b, e)) =>
      SearchLeftmost(line, 0);
      Some(line[b + 1..e - 1])
  }

  /**
    A line has a clause exactly when some part of it is in the expression's
    language, and the clause is the content of the leftmost such part.
   */
  lemma ClauseSpec(line: string)
    ensures Clause(line).None? <==> forall b: nat, e: nat :: !IsClause(line, b, e)
    ensures Clause(line).Some? ==>
      exists b: nat, e: nat ::
        IsClause(line, b, e) && Clause(line).value == line[b + 1..e - 1] && forall b': nat, e': nat :: b' < b ==> !IsClause(line, b', e')
  {
    SearchLeftmost(line, 0);
  }

  // ---------------------------------------------------------------------------
  // Records
  // ---------------------------------------------------------------------------

  /** A clause is a status clause when it starts with one of the status names. */
  predicate IsStatus(content: string) {
    exists k :: 0 <= k < |StatusNames| && StartsWith(content, StatusNames[k])
  }

  /** The status of a status clause: the content before the first comma (`content[:comma]`, which drops the last character when there is no comma). */
  function StatusOf(content: string): (r: string)
    ensures ',' !in content ==> r == DropLast(content)
    ensures ',' in content ==> ',' !in r && r + [','] <= content
  {
    var comma := Find(content, ',');
    FindIsFirst(content, ',');
    if comma == -1 then DropLast(content)
    else
      assert content[..comma] + [','] == content[..comma + 1];
      content[..comma]
  }

  /** The message of a status clause: the content after the first comma, stripped, without its first and last characters. */
  function MessageOf(content: string): (r: string)
    ensures ',' !in content ==> r == TrimOuter(Strip(content))
    ensures ',' in content ==> r == TrimOuter(Strip(content[|StatusOf(content)| + 1..]))
  {
    var comma := Find(content, ',');
    assert comma == -1 ==> content[comma + 1..] == content;
    TrimOuter(Strip(content[comma + 1..]))
  }

  /** The record a status clause yields under the given condition. */
  function MakeRecord(content: string, condition: string): Record {
    Record(StatusOf(content), MessageOf(content), condition)
  }

  /** The state machine over the lines, with `pending` the condition waiting for a status clause. */
  function ParseLines(lines: seq<string>, pending: Option<string>): seq<Record>
    decreases |lines|
  {
    if lines == [] then []
    else match Clause(lines[0])
      case None => ParseLines(lines[1..], pending)
      case Some(content) =>
        if IsStatus(content) then
          [MakeRecord(content, pending.GetOr(DefaultCondition))] + ParseLines(lines[1..], None)
        else ParseLines(lines[1..], Some(content))
  }

  /** What `_get_criteria(criteria)` yields, as a list. */
  function ParseCriteria(criteria: string): seq<Record> {
    ParseLines(Split(criteria), None)
  }

  /** One step of the state machine, on the line at `i`. */
  lemma ParseLinesStep(lines: seq<string>, i: nat, pending: Option<string>)
    requires i < |lines|
    ensures ParseLines(lines[i..], pending) ==
      match Clause(lines[i])
      case None => ParseLines(lines[i + 1..], pending)
      case Some(content) =>
        if IsStatus(content) then
          [MakeRecord(content, pending.GetOr(DefaultCondition))] + ParseLines(lines[i + 1..], None)
        else ParseLines(lines[i + 1..], Some(content))
  {
    assert lines[i..][0] == lines[i];
    assert lines[i..][1..] == lines[i + 1..];
  }

  /** The loop invariant of GetCriteria survives one line. */
  lemma GetCriteriaStep(lines: seq<string>, i: nat, pending: Option<string>, records: seq<Record>,
                        records': seq<Record>, pending': Option<string>)
    requires i < |lines|
    requires records + ParseLines(lines[i..], pending) == ParseLines(lines, None)
    requires Clause(lines[i]).None? ==> records' == records && pending' == pending
    requires Clause(lines[i]).Some? && IsStatus(Clause(lines[i]).value) ==>
      records' == records + [MakeRecord(Clause(lines[i]).value, pending.GetOr(DefaultCondition))] && pending' == None
    requires Clause(lines[i]).Some? && !IsStatus(Clause(lines[i]).value) ==>
      records' == records && pending' == Some(Clause(lines[i]).value)
    ensures records' + ParseLines(lines[i + 1..], pending') == ParseLines(lines, None)
  {
    ParseLinesStep(lines, i, pending);
    var clause := Clause(lines[i]);
    if clause.Some? && IsStatus(clause.value) {
      AppendAssoc(records, MakeRecord(clause.value, pending.GetOr(DefaultCondition)), ParseLines(lines[i + 1..], None));
    }
  }

  lemma AppendAssoc<T>(a: seq<T>, x: T, b: seq<T>)
    ensures a + [x] + b == a + ([x] + b)
  {
  }

  /** `_get_criteria`: the loop over the lines. */
  method GetCriteria(criteria: string) returns (records: seq<Record>)
    ensures records == ParseCriteria(criteria)
  {
    var lines := Split(criteria);
    var condition: Option<string> := None;
    records := [];
    var i := 0;
    while i < |lines|
      invariant 0 <= i <= |lines|
      invariant records + ParseLines(lines[i..], condition) == ParseLines(lines, None)
    {
      ghost var records0, condition0 := records, condition;
      var clause := Clause(lines[i]);
      if clause.Some? {
        var content := clause.value;
        if IsStatus(content) {
          if condition.None? {
            condition := Some(DefaultCondition);
          }
          var comma := Find(content, ',');
          var status := if comma == -1 then DropLast(content) else content[..comma];
          var message := content[comma + 1..];
          message := Strip(message);
          message := TrimOuter(message);
          records := records + [Record(status, message, condition.value)];
          condition := None;
        } else {
          condition := Some(content);
        }
      }
      GetCriteriaStep(lines, i, condition0, records0, records, condition);
      i := i + 1;
    }
    assert lines[i..] == [];
  }

  // ---------------------------------------------------------------------------
  // What the records are, line by line
  // ---------------------------------------------------------------------------

  /** Line `i` holds a status clause. */
  predicate IsStatusLine(lines: seq<string>, i: nat)
    requires i < |lines|
  {
    Clause(lines[i]).Some? && IsStatus(Clause(lines[i]).value)
  }

  /**
    The condition waiting when line `i` is reached, found by looking back:
    the nearest earlier clause, when it is a condition clause.
   */
  function PendingBefore(lines: seq<string>, i: nat): Option<string>
    requires i <= |lines|
    decreases i
  {
    if i == 0 then None
    else match Clause(lines[i - 1])
      case None => PendingBefore(lines, i - 1)
      case Some(c) => if IsStatus(c) then None else Some(c)
  }

  /** The record a status line yields. */
  function RecordAt(lines: seq<string>, i: nat): Record
    requires i < |lines| && IsStatusLine(lines, i)
  {
    MakeRecord(Clause(lines[i]).value, PendingBefore(lines, i).GetOr(DefaultCondition))
  }

  /** The indices of the status lines from `j` on, in increasing order. */
  function StatusLinesFrom(lines: seq<string>, j: nat): (idx: seq<nat>)
    requires j <= |lines|
    ensures forall k :: 0 <= k < |idx| ==> j <= idx[k] < |lines| && IsStatusLine(lines, idx[k])
    ensures forall k, k' :: 0 <= k < k' < |idx| ==> idx[k] < idx[k']
    ensures forall i :: j <= i < |lines| && IsStatusLine(lines, i) ==> i in idx
    decreases |lines| - j
  {
    if j == |lines| then []
    else if IsStatusLine(lines, j) then [j] + StatusLinesFrom(lines, j + 1)
    else StatusLinesFrom(lines, j + 1)
  }

  /** One record per status line, in line order. */
  function RecordsAt(lines: seq<string>, idx: seq<nat>): (rs: seq<Record>)
    requires forall k :: 0 <= k < |idx| ==> idx[k] < |lines| && IsStatusLine(lines, idx[k])
    ensures |rs| == |idx|
    decreases |idx|
  {
    if idx == [] then [] else [RecordAt(lines, idx[0])] + RecordsAt(lines, idx[1..])
  }

  lemma {:induction false} RecordsAtIndex(lines: seq<string>, idx: seq<nat>, k: nat)
    requires forall k :: 0 <= k < |idx| ==> idx[k] < |lines| && IsStatusLine(lines, idx[k])
    requires k < |idx|
    ensures RecordsAt(lines, idx)[k] == RecordAt(lines, idx[k])
    decreases k
  {
    if k > 0 {
      RecordsAtIndex(lines, idx[1..], k - 1);
    }
  }

  lemma {:induction false} ParseLinesFrom(lines: seq<string>, j: nat)
    requires j <= |lines|
    ensures ParseLines(lines[j..], PendingBefore(lines, j)) == RecordsAt(lines, StatusLinesFrom(lines, j))
    decreases |lines| - j
  {
    if j < |lines| {
      ParseLinesStep(lines, j, PendingBefore(lines, j));
      ParseLinesFrom(lines, j + 1);
      var idx := StatusLinesFrom(lines, j);
      if IsStatusLine(lines, j) {
        assert idx[1..] == StatusLinesFrom(lines, j + 1);
      }
    }
  }

  /**
    `_get_criteria` yields exactly one record per line whose first clause is a
    status clause, in line order; the record's condition is the nearest
    earlier clause when that is a condition clause, and "default" otherwise.
   */
  lemma ParseCriteriaRecords(criteria: string)
    ensures var lines := Split(criteria);
      var idx := StatusLinesFrom(lines, 0);
      && |ParseCriteria(criteria)| == |idx|
      && forall k :: 0 <= k < |idx| ==> ParseCriteria(criteria)[k] == RecordAt(lines, idx[k])
  {
    var lines := Split(criteria);
    ParseLinesFrom(lines, 0);
    assert lines[0..] == lines;
    var idx := StatusLinesFrom(lines, 0);
    forall k | 0 <= k < |idx| ensures ParseCriteria(criteria)[k] == RecordAt(lines, idx[k]) {
      RecordsAtIndex(lines, idx, k);
    }
  }

  /**
    The pending condition is the nearest earlier clause when that is a
    condition clause: a later condition overwrites an earlier one, and a
    status clause consumes the condition before it.
   */
  lemma {:induction false} PendingIsNearestCondition(lines: seq<string>, i: nat)
    requires i <= |lines|
    ensures PendingBefore(lines, i).Some? ==>
      exists j :: 0 <= j < i && Clause(lines[j]) == PendingBefore(lines, i) && !IsStatus(Clause(lines[j]).value) &&
        forall m :: j < m < i ==> Clause(lines[m]).None?
    ensures forall j :: (0 <= j < i && Clause(lines[j]).Some? && !IsStatus(Clause(lines[j]).value) &&
        (forall m :: j < m < i ==> Clause(lines[m]).None?)) ==> PendingBefore(lines, i) == Clause(lines[j])
    decreases i
  {
    if i > 0 {
      PendingIsNearestCondition(lines, i - 1);
      if Clause(lines[i - 1]).None? {
        forall j | 0 <= j < i && Clause(lines[j]).Some? && !IsStatus(Clause(lines[j]).value) &&
            (forall m :: j < m < i ==> Clause(lines[m]).None?)
          ensures PendingBefore(lines, i) == Clause(lines[j])
        {
          assert j < i - 1;
        }
      }
    }
  }

  /** A status clause with no condition clause waiting gets the condition "default". */
  lemma DefaultWithoutCondition(lines: seq<string>, i: nat)
    requires i < |lines| && IsStatusLine(lines, i)
    requires forall j :: 0 <= j < i && Clause(lines[j]).Some? ==>
      IsStatus(Clause(lines[j]).value) || exists m :: j < m < i && Clause(lines[m]).Some?
    ensures RecordAt(lines, i).condition == DefaultCondition
  {
    PendingIsNearestCondition(lines, i);
  }

  // ---------------------------------------------------------------------------
  // Status and message of one clause
  // ---------------------------------------------------------------------------

  lemma FindAfterChar(a: string, c: char, b: string)
    requires c !in a
    ensures Find(a + [c] + b, c) == |a|
  {
    var s := a + [c] + b;
    assert s[|a|] == c;
    assert s[..|a|] == a;
    FindIsFirst(s, c);
  }

  lemma {:induction false} LStripSpaces(pad: string, x: string)
    requires AllSpace(pad)
    requires x == [] || !IsSpace(x[0])
    ensures LStrip(pad + x) == x
    decreases |pad|
  {
    if pad != [] {
      assert (pad + x)[1..] == pad[1..] + x;
      LStripSpaces(pad[1..], x);
    } else {
      assert pad + x == x;
    }
  }

  lemma {:induction false} RStripSpaces(x: string, pad: string)
    requires AllSpace(pad)
    requires x == [] || !IsSpace(x[|x| - 1])
    ensures RStrip(x + pad) == x
    decreases |pad|
  {
    if pad != [] {
      assert (x + pad)[..|x + pad| - 1] == x + pad[..|pad| - 1];
      RStripSpaces(x, pad[..|pad| - 1]);
    } else {
      assert x + pad == x;
    }
  }

  /**
    A status clause written `STATUS, 'message'` (any spacing around the quoted
    message, any non-space quote characters) yields that status and message.
   */
  lemma StatusClauseRoundTrip(status: string, message: string, open: char, close: char, before: string, after: string)
    requires ',' !in status
    requires !IsSpace(open) && !IsSpace(close)
    requires AllSpace(before) && AllSpace(after)
    ensures var content := status + "," + before + [open] + message + [close] + after;
      StatusOf(content) == status && MessageOf(content) == message
  {
    var rest := before + [open] + message + [close] + after;
    assert status + "," + before + [open] + message + [close] + after == status + [','] + rest;
    CommaSplit(status, rest);
    QuotedMessage(message, open, close, before, after);
  }

  /** The first comma splits the content into the status before it and the message text after it. */
  lemma CommaSplit(status: string, rest: string)
    requires ',' !in status
    ensures StatusOf(status + [','] + rest) == status
    ensures MessageOf(status + [','] + rest) == TrimOuter(Strip(rest))
  {
    var content := status + [','] + rest;
    FindAfterChar(status, ',', rest);
    assert content[..|status|] == status;
    assert content[|status| + 1..] == rest;
  }

  /** Stripping the spaces around a quoted message and trimming the quotes gives the message back. */
  lemma QuotedMessage(message: string, open: char, close: char, before: string, after: string)
    requires !IsSpace(open) && !IsSpace(close)
    requires AllSpace(before) && AllSpace(after)
    ensures TrimOuter(Strip(before + [open] + message + [close] + after)) == message
  {
    var quoted := [open] + message + [close];
    assert before + [open] + message + [close] + after == before + (quoted + after);
    LStripSpaces(before, quoted + after);
    RStripSpaces(quoted, after);
    assert TrimOuter(quoted) == message;
  }

  /**
    A status clause without a comma, such as `OK`: `find` gives -1, so the
    status loses its last character (`(OK)` documents status `O`) and the
    message is the trimmed whole content without its ends (here empty).
   */
  lemma StatusWithoutComma()
    ensures StatusOf("OK") == "O" && MessageOf("OK") == ""
  {
    assert ',' !in "OK";
    assert !IsSpace('O') && !IsSpace('K');
    assert LStrip("OK") == "OK";
    assert RStrip("OK") == "OK";
  }

  // ---------------------------------------------------------------------------
  // Clauses of a simple line
  // ---------------------------------------------------------------------------

  predicate NoParens(s: string) {
    forall k :: 0 <= k < |s| ==> s[k] != '(' && s[k] != ')'
  }

  lemma {:induction false} DepthWithoutParens(s: string, k: nat, m: nat)
    requires k <= m <= |s|
    requires forall n :: k <= n < m ==> s[n] != '(' && s[n] != ')'
    ensures Depth(s, k, m) == 0
    decreases m - k
  {
    if k < m {
      DepthWithoutParens(s, k + 1, m);
    }
  }

  /** A line that is one parenthesised group without inner parentheses has that group's content as its clause. */
  lemma ClauseOfGroup(body: string)
    requires NoParens(body)
    ensures Clause("(" + body + ")") == Some(body)
  {
    var line := "(" + body + ")";
    var e := |line|;
    forall m | 1 <= m <= e - 1 ensures Depth(line, 1, m) == 0 {
      DepthWithoutParens(line, 1, m);
    }
    assert IsClause(line, 0, e);
    MatchAtIff(line, 0, e);
    assert SearchFrom(line, 0) == Some((0, e));
    assert line[1..e - 1] == body;
  }

  /** `STATUS, "message"` as the check templates write a status clause. */
  function StatusText(status: string, message: string): string {
    status + "," + " " + ['"'] + message + ['"']
  }

  lemma StatusTextParts(status: string, message: string)
    requires ',' !in status && status in StatusNames
    ensures IsStatus(StatusText(status, message))
    ensures StatusOf(StatusText(status, message)) == status
    ensures MessageOf(StatusText(status, message)) == message
  {
    var b := StatusText(status, message);
    var k :| 0 <= k < |StatusNames| && status == StatusNames[k];
    assert b[..|status|] == status;
    assert StartsWith(b, StatusNames[k]);
    assert b == status + "," + " " + ['"'] + message + ['"'] + "";
    StatusClauseRoundTrip(status, message, '"', '"', " ", "");
  }

  lemma ConditionThenTwoRecords(lines: seq<string>, c: string, b2: string, b3: string)
    requires |lines| == 3
    requires Clause(lines[0]) == Some(c) && !IsStatus(c)
    requires Clause(lines[1]) == Some(b2) && IsStatus(b2)
    requires Clause(lines[2]) == Some(b3) && IsStatus(b3)
    ensures ParseLines(lines, None) == [MakeRecord(b2, c), MakeRecord(b3, DefaultCondition)]
  {
    var l1 := lines[1..];
    var l2 := l1[1..];
    assert l1[0] == lines[1] && l2[0] == lines[2] && l2[1..] == [];
    var r3 := MakeRecord(b3, DefaultCondition);
    var r2 := MakeRecord(b2, c);
    assert ParseLines(l2, None) == [r3] by {
      ParseLinesHead(l2, None);
    }
    assert ParseLines(l1, Some(c)) == [r2, r3] by {
      ParseLinesHead(l1, Some(c));
    }
    ParseLinesHead(lines, None);
  }

  /** One step of the state machine, on the first line. */
  lemma ParseLinesHead(lines: seq<string>, pending: Option<string>)
    requires lines != []
    ensures ParseLines(lines, pending) ==
      match Clause(lines[0])
      case None => ParseLines(lines[1..], pending)
      case Some(content) =>
        if IsStatus(content) then
          [MakeRecord(content, pending.GetOr(DefaultCondition))] + ParseLines(lines[1..], None)
        else ParseLines(lines[1..], Some(content))
  {
  }

  lemma ConditionThenTwoGroups(cond: string, b2: string, b3: string)
    requires NoParens(cond) && NoParens(b2) && NoParens(b3)
    requires !IsStatus(cond) && IsStatus(b2) && IsStatus(b3)
    ensures ParseLines(["(" + cond + ")", "(" + b2 + ")", "(" + b3 + ")"], None) ==
      [MakeRecord(b2, cond), MakeRecord(b3, DefaultCondition)]
  {
    ClauseOfGroup(cond);
    ClauseOfGroup(b2);
    ClauseOfGroup(b3);
    ConditionThenTwoRecords(["(" + cond + ")", "(" + b2 + ")", "(" + b3 + ")"], cond, b2, b3);
  }

  lemma ConditionOkCritical(cond: string, okMessage: string, critMessage: string)
    requires NoParens(cond) && NoParens(okMessage) && NoParens(critMessage)
    requires !IsStatus(cond)
    ensures ParseLines(["(" + cond + ")", "(" + StatusText("OK", okMessage) + ")", "(" + StatusText("CRITICAL", critMessage) + ")"], None) ==
      [Record("OK", okMessage, cond), Record("CRITICAL", critMessage, DefaultCondition)]
  {
    assert StatusNames[2] == "OK" && StatusNames[0] == "CRITICAL";
    StatusGroup(2, okMessage, cond);
    StatusGroup(0, critMessage, DefaultCondition);
    ConditionThenTwoGroups(cond, StatusText("OK", okMessage), StatusText("CRITICAL", critMessage));
  }

  /** A status clause written by the templates has no inner parentheses and yields its own status and message. */
  lemma StatusGroup(k: nat, message: string, condition: string)
    requires k < |StatusNames| && NoParens(message)
    ensures var status := StatusNames[k];
      && NoParens(StatusText(status, message)) && IsStatus(StatusText(status, message))
      && MakeRecord(StatusText(status, message), condition) == Record(status, message, condition)
  {
    var status := StatusNames[k];
    StatusNamesPlain();
    StatusTextParts(status, message);
    NoParensAppend(status, ",");
    NoParensAppend(status + ",", " ");
    NoParensAppend(status + "," + " ", ['"']);
    NoParensAppend(status + "," + " " + ['"'], message);
    NoParensAppend(status + "," + " " + ['"'] + message, ['"']);
  }

  /** No status name holds a comma or a parenthesis. */
  lemma StatusNamesPlain()
    ensures forall k :: 0 <= k < |StatusNames| ==> ',' !in StatusNames[k] && NoParens(StatusNames[k])
  {
  }

  lemma NoParensAppend(a: string, b: string)
    requires NoParens(a) && NoParens(b)
    ensures NoParens(a + b)
  {
    forall k | 0 <= k < |a + b| ensures (a + b)[k] != '(' && (a + b)[k] != ')' {
      if k >= |a| {
        assert (a + b)[k] == b[k - |a|];
      }
    }
  }

  /**
    The shape of the ping check's criteria: a condition line, an `OK` line and
    a `CRITICAL` line give two records, the first under the condition and the
    second under "default".
   */
  lemma ConditionThenTwoStatuses(cond: string, okMessage: string, critMessage: string)
    requires NoParens(cond) && NoParens(okMessage) && NoParens(critMessage)
    requires '\n' !in cond && '\n' !in okMessage && '\n' !in critMessage
    requires !IsStatus(cond)
    ensures ParseCriteria(Join(["(" + cond + ")", "(" + StatusText("OK", okMessage) + ")", "(" + StatusText("CRITICAL", critMessage) + ")"])) ==
      [Record("OK", okMessage, cond), Record("CRITICAL", critMessage, DefaultCondition)]
  {
    var lines := ["(" + cond + ")", "(" + StatusText("OK", okMessage) + ")", "(" + StatusText("CRITICAL", critMessage) + ")"];
    assert '\n' !in lines[0] && '\n' !in lines[1] && '\n' !in lines[2];
    SplitJoin(lines);
    ConditionOkCritical(cond, okMessage, critMessage);
  }
}
