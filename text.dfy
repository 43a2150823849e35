/** The stock Option datatype, used for JavaScript values that may be absent. */
module Wrappers {
  datatype Option<+T> = None | Some(value: T)
}

/**
 * String helpers shared by the components: the ASCII character classes the
 * regular expressions use, ASCII case mapping, ECMAScript `trim`,
 * `split` on a class of separator characters and `join`.
 */
module Text {
  import opened Wrappers

  /** The class `[a-zA-Z0-9]`. */
  predicate IsAsciiAlnum(c: char) {
    'a' <= c <= 'z' || 'A' <= c <= 'Z' || '0' <= c <= '9'
  }

  /** The regular-expression word class `\w`, that is `[A-Za-z0-9_]`. */
  predicate IsWordChar(c: char) {
    IsAsciiAlnum(c) || c == '_'
  }

  predicate IsAsciiLower(c: char) { 'a' <= c <= 'z' }
  predicate IsAsciiUpper(c: char) { 'A' <= c <= 'Z' }

  /** `toUpperCase` restricted to ASCII: the only characters it is applied to here. */
  function UpperAscii(c: char): (u: char)
    ensures IsAsciiAlnum(c) ==> IsAsciiAlnum(u) && !IsAsciiLower(u)
    ensures !IsAsciiLower(c) ==> u == c
  {
    if IsAsciiLower(c) then (c as int - 32) as char else c
  }

  /** `toLowerCase` restricted to ASCII. */
  function LowerAscii(c: char): (l: char)
    ensures IsAsciiAlnum(c) ==> IsAsciiAlnum(l) && !IsAsciiUpper(l)
    ensures !IsAsciiUpper(c) ==> l == c
  {
    if IsAsciiUpper(c) then (c as int + 32) as char else c
  }

  function LowerAll(s: string): (r: string)
    ensures |r| == |s|
    ensures forall i :: 0 <= i < |s| ==> r[i] == LowerAscii(s[i])
  {
    seq(|s|, i requires 0 <= i < |s| => LowerAscii(s[i]))
  }

  predicate StartsWith(s: string, prefix: string) {
    |prefix| <= |s| && s[..|prefix|] == prefix
  }

  predicate EndsWith(s: string, suffix: string) {
    |suffix| <= |s| && s[|s| - |suffix|..] == suffix
  }

  /** `pattern` occurs in `s` starting at index `i`. */
  predicate OccursAt(s: string, pattern: string, i: int) {
    0 <= i && i + |pattern| <= |s| && s[i..i + |pattern|] == pattern
  }

  /**
   * `String.prototype.indexOf(pattern, from)`: the first index at or after
   * `from` where `pattern` occurs, or None.
   */
  function IndexOf(s: string, pattern: string, from: nat): (r: Option<nat>)
    decreases |s| - from
    ensures r.Some? ==> from <= r.value && OccursAt(s, pattern, r.value)
    ensures r.Some? ==> forall j :: from <= j < r.value ==> !OccursAt(s, pattern, j)
    ensures r.None? ==> forall j :: from <= j ==> !OccursAt(s, pattern, j)
  {
    if from + |pattern| > |s| then None
    else if s[from..from + |pattern|] == pattern then Some(from)
    else IndexOf(s, pattern, from + 1)
  }

  /**
   * ECMAScript white space and line terminators, the characters `trim`
   * removes: TAB, VT, FF, SP, NBSP, ZWNBSP, the other Zs characters, LF, CR,
   * LS and PS.
   */
  predicate IsJsWhitespace(c: char) {
    || c == '\t' || c == '\U{000B}' || c == '\U{000C}' || c == ' ' || c == '\U{00A0}'
    || c == '\U{FEFF}' || c == '\U{1680}' || ('\U{2000}' <= c <= '\U{200A}')
    || c == '\U{202F}' || c == '\U{205F}' || c == '\U{3000}'
    || c == '\n' || c == '\r' || c == '\U{2028}' || c == '\U{2029}'
  }

  /** Removes leading white space. */
  function TrimStart(s: string): (r: string)
    ensures |r| <= |s| && r == s[|s| - |r|..]
    ensures r == [] || !IsJsWhitespace(r[0])
    ensures forall i :: 0 <= i < |s| - |r| ==> IsJsWhitespace(s[i])
  {
    if s != [] && IsJsWhitespace(s[0]) then TrimStart(s[1..]) else s
  }

  /** Removes trailing white space. */
  function TrimEnd(s: string): (r: string)
    ensures |r| <= |s| && r == s[..|r|]
    ensures r == [] || !IsJsWhitespace(r[|r| - 1])
    ensures forall i :: |r| <= i < |s| ==> IsJsWhitespace(s[i])
  {
    if s != [] && IsJsWhitespace(s[|s| - 1]) then TrimEnd(s[..|s| - 1]) else s
  }

  /** `String.prototype.trim`. */
  function Trim(s: string): (r: string)
    ensures r == [] || (!IsJsWhitespace(r[0]) && !IsJsWhitespace(r[|r| - 1]))
  {
    TrimEnd(TrimStart(s))
  }

  /** `r` is `s` from index `i` on, with only white space cut off before and after it. */
  predicate TrimmedAt(s: string, r: string, i: int) {
    && 0 <= i && i + |r| <= |s|
    && (forall k :: 0 <= k < |r| ==> r[k] == s[i + k])
    && (forall k :: 0 <= k < i ==> IsJsWhitespace(s[k]))
    && (forall k :: i + |r| <= k < |s| ==> IsJsWhitespace(s[k]))
  }

  /** Trimming cuts only white space, and only off the two ends. */
  lemma TrimCutsEnds(s: string)
    ensures exists i :: TrimmedAt(s, Trim(s), i)
  {
    var front := TrimStart(s);
    assert TrimEnd(front) == Trim(s);
    CutBothEnds(s, front, TrimEnd(front));
    assert TrimmedAt(s, Trim(s), |s| - |front|);
  }

  /** Cutting white space off the front of `s`, then off the back of what is left. */
  lemma CutBothEnds(s: string, front: string, r: string)
    requires |front| <= |s| && front == s[|s| - |front|..]
    requires forall k :: 0 <= k < |s| - |front| ==> IsJsWhitespace(s[k])
    requires |r| <= |front| && r == front[..|r|]
    requires forall k :: |r| <= k < |front| ==> IsJsWhitespace(front[k])
    ensures TrimmedAt(s, r, |s| - |front|)
  {
    var i := |s| - |front|;
    forall k | 0 <= k < |r|
      ensures r[k] == s[i + k]
    {
      assert r[k] == front[k];
    }
    forall k | i + |r| <= k < |s|
      ensures IsJsWhitespace(s[k])
    {
      assert s[k] == front[k - i];
    }
  }

  /** A string with no white space at either end is its own trim. */
  lemma TrimUnchanged(s: string)
    requires s == [] || (!IsJsWhitespace(s[0]) && !IsJsWhitespace(s[|s| - 1]))
    ensures Trim(s) == s
  {
  }

  lemma TrimIdempotent(s: string)
    ensures Trim(Trim(s)) == Trim(s)
  {
    TrimUnchanged(Trim(s));
  }

  /** Number of characters of `s` in the class `p`. */
  function CountWhere(s: string, p: char -> bool): nat {
    if s == [] then 0 else (if p(s[0]) then 1 else 0) + CountWhere(s[1..], p)
  }

  /**
   * `s.split(sep)` where the separator is any single character of the class
   * `isSep`: the pieces between separators, empty ones included, so that
   * there is always at least one piece.
   */
  function SplitWhere(s: string, isSep: char -> bool): (parts: seq<string>)
    ensures |parts| == CountWhere(s, isSep) + 1
    ensures forall k :: 0 <= k < |parts| ==> NoneWhere(parts[k], isSep)
  {
    if s == [] then [""]
    else
      var rest := SplitWhere(s[1..], isSep);
      if isSep(s[0]) then [""] + rest
      else
        assert NoneWhere([s[0]] + rest[0], isSep) by {
          assert forall i :: 1 <= i < 1 + |rest[0]| ==> ([s[0]] + rest[0])[i] == rest[0][i - 1];
        }
        [[s[0]] + rest[0]] + rest[1..]
  }

  /** The total length of the pieces. */
  function TotalLength(parts: seq<string>): nat {
    if parts == [] then 0 else |parts[0]| + TotalLength(parts[1..])
  }

  /** `parts.join(sep)`: the pieces in order, with one separator between each two. */
  function Join(parts: seq<string>, sep: string): (r: string)
    ensures parts != [] ==> |r| == TotalLength(parts) + (|parts| - 1) * |sep|
  {
    if parts == [] then ""
    else if |parts| == 1 then parts[0]
    else
      var rest := Join(parts[1..], sep);
      assert (|parts| - 1) * |sep| == (|parts| - 2) * |sep| + |sep|;
      parts[0] + sep + rest
  }

  predicate NoneWhere(s: string, p: char -> bool) {
    forall i :: 0 <= i < |s| ==> !p(s[i])
  }

  lemma JoinCons(head: string, tail: seq<string>, sep: string)
    requires tail != []
    ensures Join([head] + tail, sep) == head + sep + Join(tail, sep)
  {
    assert ([head] + tail)[1..] == tail;
  }

  /** Joining the pieces of a split on a single character gives the string back. */
  lemma {:induction false} JoinSplit(s: string, isSep: char -> bool, sep: char)
    requires forall c :: isSep(c) <==> c == sep
    ensures Join(SplitWhere(s, isSep), [sep]) == s
  {
    if s != [] {
      var rest := SplitWhere(s[1..], isSep);
      JoinSplit(s[1..], isSep, sep);
      if isSep(s[0]) {
        JoinCons("", rest, [sep]);
        assert [s[0]] == [sep];
      } else {
        assert SplitWhere(s, isSep) == [[s[0]] + rest[0]] + rest[1..];
        JoinPrepend(s[0], rest, [sep]);
      }
      assert s == [s[0]] + s[1..];
    }
  }

  /** Extending the first piece by one character extends the joined string by it. */
  lemma JoinPrepend(c: char, parts: seq<string>, sep: string)
    requires parts != []
    ensures Join([[c] + parts[0]] + parts[1..], sep) == [c] + Join(parts, sep)
  {
    var first := [c] + parts[0];
    if |parts| > 1 {
      JoinCons(first, parts[1..], sep);
      JoinCons(parts[0], parts[1..], sep);
      assert [parts[0]] + parts[1..] == parts;
    }
  }


  /** Splitting a separator-free prefix glues it onto the first piece. */
  lemma {:induction false} SplitCleanPrefix(a: string, b: string, isSep: char -> bool)
    requires NoneWhere(a, isSep)
    ensures SplitWhere(a + b, isSep)
         == [a + SplitWhere(b, isSep)[0]] + SplitWhere(b, isSep)[1..]
  {
    if a != [] {
      assert (a + b)[1..] == a[1..] + b;
      SplitCleanPrefix(a[1..], b, isSep);
      assert [a[0]] + (a[1..] + SplitWhere(b, isSep)[0]) == a + SplitWhere(b, isSep)[0];
    } else {
      assert a + b == b;
      assert a + SplitWhere(b, isSep)[0] == SplitWhere(b, isSep)[0];
      assert [SplitWhere(b, isSep)[0]] + SplitWhere(b, isSep)[1..] == SplitWhere(b, isSep);
    }
  }

  /** Splitting the join of separator-free pieces gives the pieces back. */
  lemma {:induction false} SplitJoin(parts: seq<string>, isSep: char -> bool, sep: char)
    requires forall c :: isSep(c) <==> c == sep
    requires |parts| >= 1
    requires forall k :: 0 <= k < |parts| ==> NoneWhere(parts[k], isSep)
    ensures SplitWhere(Join(parts, [sep]), isSep) == parts
  {
    if |parts| == 1 {
      SplitCleanPrefix(parts[0], "", isSep);
      assert parts[0] + "" == parts[0];
    } else {
      var tail := Join(parts[1..], [sep]);
      SplitJoin(parts[1..], isSep, sep);
      assert Join(parts, [sep]) == parts[0] + ([sep] + tail);
      SplitCleanPrefix(parts[0], [sep] + tail, isSep);
      assert ([sep] + tail)[1..] == tail;
      assert SplitWhere([sep] + tail, isSep) == [""] + parts[1..];
      assert parts[0] + "" == parts[0];
      assert [parts[0]] + parts[1..] == parts;
    }
  }
}
