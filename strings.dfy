/** ASCII string helpers shared by the model: the parts of JavaScript's
    String API (toLowerCase, startsWith, endsWith, includes, trim,
    split('.').pop()) that the viewer's code relies on. */
module Strings {

  /** `toLowerCase` restricted to ASCII letters. */
  function LowerChar(c: char): char {
    if 'A' <= c <= 'Z' then (c as int + 32) as char else c
  }

  function Lower(s: string): (r: string)
    ensures |r| == |s|
    ensures forall i :: 0 <= i < |s| ==> r[i] == LowerChar(s[i])
  {
    seq(|s|, i requires 0 <= i < |s| => LowerChar(s[i]))
  }

  lemma LowerAppend(a: string, b: string)
    ensures Lower(a + b) == Lower(a) + Lower(b)
  {
    assert forall i :: 0 <= i < |a + b| ==> Lower(a + b)[i] == (Lower(a) + Lower(b))[i];
  }

  /** Lower-casing twice changes nothing more. */
  lemma LowerIdempotent(s: string)
    ensures Lower(Lower(s)) == Lower(s)
  {
    assert forall i :: 0 <= i < |s| ==> LowerChar(LowerChar(s[i])) == LowerChar(s[i]);
  }

  predicate StartsWith(s: string, prefix: string) {
    |prefix| <= |s| && s[..|prefix|] == prefix
  }

  predicate EndsWith(s: string, suffix: string) {
    |suffix| <= |s| && s[|s| - |suffix|..] == suffix
  }

  /** `s.includes(sub)`: some window of `s` equals `sub`. */
  predicate Contains(s: string, sub: string) {
    StartsWith(s, sub) || (s != [] && Contains(s[1..], sub))
  }

  /** `sub` occurs in `s` starting at index `i`. */
  predicate OccursAt(s: string, sub: string, i: int) {
    0 <= i && i + |sub| <= |s| && s[i..i + |sub|] == sub
  }

  /** `includes` holds exactly when `sub` occurs somewhere in `s`. */
  lemma {:induction false} ContainsWindow(s: string, sub: string)
    ensures Contains(s, sub) <==> exists i :: OccursAt(s, sub, i)
    decreases s
  {
    if s == [] {
      if exists i :: OccursAt(s, sub, i) {
        var i :| OccursAt(s, sub, i);
        assert sub == [] && StartsWith(s, sub);
      }
      if Contains(s, sub) {
        assert OccursAt(s, sub, 0);
      }
    } else {
      ContainsWindow(s[1..], sub);
      if exists i :: OccursAt(s, sub, i) {
        var i :| OccursAt(s, sub, i);
        if i > 0 {
          assert s[1..][i - 1..i - 1 + |sub|] == sub;
          assert OccursAt(s[1..], sub, i - 1);
        } else {
          assert StartsWith(s, sub);
        }
      }
      if Contains(s, sub) {
        if StartsWith(s, sub) {
          assert OccursAt(s, sub, 0);
        } else {
          var i :| OccursAt(s[1..], sub, i);
          assert s[i + 1..i + 1 + |sub|] == s[1..][i..i + |sub|];
          assert OccursAt(s, sub, i + 1);
        }
      }
    }
  }

  /** `s.includes(c)` for a one-character `c`: `c` occurs in `s`. */
  lemma ContainsChar(s: string, c: char)
    ensures Contains(s, [c]) <==> c in s
  {
    ContainsWindow(s, [c]);
    if c in s {
      var i :| 0 <= i < |s| && s[i] == c;
      assert OccursAt(s, [c], i);
    }
    if Contains(s, [c]) {
      var i :| OccursAt(s, [c], i);
      assert s[i] == s[i..i + 1][0];
    }
  }

  /** `s.includes(ab)` for a two-character `ab`: the two occur side by side. */
  lemma ContainsPair(s: string, a: char, b: char)
    ensures Contains(s, [a, b]) <==> exists i :: 0 <= i < |s| - 1 && s[i] == a && s[i + 1] == b
  {
    ContainsWindow(s, [a, b]);
    if exists i :: 0 <= i < |s| - 1 && s[i] == a && s[i + 1] == b {
      var i :| 0 <= i < |s| - 1 && s[i] == a && s[i + 1] == b;
      assert s[i..i + 2] == [a, b];
      assert OccursAt(s, [a, b], i);
    }
    if Contains(s, [a, b]) {
      var i :| OccursAt(s, [a, b], i);
      assert s[i] == s[i..i + 2][0] && s[i + 1] == s[i..i + 2][1];
    }
  }

  /** The characters JavaScript's `trim` and the regex class `\s` treat as
      white space, restricted to ASCII. */
  predicate IsSpace(c: char) {
    c == ' ' || c == '\t' || c == '\n' || c == '\r' || c == '\U{000B}' || c == '\U{000C}'
  }

  function TrimStart(s: string): string {
    if s != [] && IsSpace(s[0]) then TrimStart(s[1..]) else s
  }

  function TrimEnd(s: string): string {
    if s != [] && IsSpace(s[|s| - 1]) then TrimEnd(s[..|s| - 1]) else s
  }

  /** `s.trim()`: `s` without its leading and trailing white space. */
  function Trim(s: string): string {
    TrimEnd(TrimStart(s))
  }

  /** `TrimStart` cuts off exactly the leading white space. */
  lemma {:induction false} TrimStartSpec(s: string)
    ensures var r := TrimStart(s);
      && |r| <= |s| && r == s[|s| - |r|..]
      && (r != [] ==> !IsSpace(r[0]))
      && forall i :: 0 <= i < |s| - |r| ==> IsSpace(s[i])
    decreases s
  {
    if s != [] && IsSpace(s[0]) {
      TrimStartSpec(s[1..]);
      assert forall i :: 1 <= i < |s| ==> s[1..][i - 1] == s[i];
    }
  }

  /** `TrimEnd` cuts off exactly the trailing white space. */
  lemma {:induction false} TrimEndSpec(s: string)
    ensures var r := TrimEnd(s);
      && |r| <= |s| && r == s[..|r|]
      && (r != [] ==> !IsSpace(r[|r| - 1]))
      && forall i :: |r| <= i < |s| ==> IsSpace(s[i])
    decreases s
  {
    if s != [] && IsSpace(s[|s| - 1]) {
      TrimEndSpec(s[..|s| - 1]);
    }
  }

  /** A trimmed string neither starts nor ends with white space, and is a
      window of the original; every character cut off is white space. */
  lemma TrimEnds(s: string)
    ensures var r := Trim(s);
      && (r != [] ==> !IsSpace(r[0]) && !IsSpace(r[|r| - 1]))
      && |r| <= |TrimStart(s)| <= |s| && r == TrimStart(s)[..|r|]
      && (forall i :: 0 <= i < |s| - |TrimStart(s)| ==> IsSpace(s[i]))
      && (forall i :: |s| - |TrimStart(s)| + |r| <= i < |s| ==> IsSpace(s[i]))
  {
    var t := TrimStart(s);
    TrimStartSpec(s);
    TrimEndSpec(t);
  }

  /** Trimming gives the empty string exactly when `s` is all white space. */
  lemma TrimEmpty(s: string)
    ensures Trim(s) == [] <==> forall i :: 0 <= i < |s| ==> IsSpace(s[i])
  {
    var t := TrimStart(s);
    TrimStartSpec(s);
    TrimEndSpec(t);
    if t != [] {
      assert t[0] == s[|s| - |t|];
    }
  }

  /** `s.split('.').pop()`: the text after the last '.', or all of `s`
      when it holds no '.'. */
  function AfterLastDot(s: string): string {
    if s == [] then []
    else if s[|s| - 1] == '.' then []
    else AfterLastDot(s[..|s| - 1]) + [s[|s| - 1]]
  }

  /** What `AfterLastDot` returns holds no '.' and ends `s`; when `s` has a
      '.', it is preceded by one, and otherwise it is all of `s`. */
  lemma {:induction false} AfterLastDotSpec(s: string)
    ensures var r := AfterLastDot(s);
      && '.' !in r
      && EndsWith(s, r)
      && ('.' in s ==> |r| < |s| && s[|s| - |r| - 1] == '.')
      && ('.' !in s ==> r == s)
    decreases |s|
  {
    if s != [] && s[|s| - 1] != '.' {
      var init := s[..|s| - 1];
      AfterLastDotSpec(init);
      assert s == init + [s[|s| - 1]];
      if '.' in s {
        var k :| 0 <= k < |s| && s[k] == '.';
        assert init[k] == '.';
      }
    }
  }

  /** Whatever follows the last '.' of `p + ("." + e)`, for a dot-free `e`,
      is `e`. */
  lemma {:induction false} AfterLastDotOf(p: string, e: string)
    requires '.' !in e
    ensures AfterLastDot(p + ("." + e)) == e
    decreases |e|
  {
    var s := p + ("." + e);
    if e != [] {
      var init := e[..|e| - 1];
      assert "." + e == ("." + init) + [e[|e| - 1]];
      assert s[..|s| - 1] == p + ("." + init);
      assert s[|s| - 1] == e[|e| - 1] != '.';
      AfterLastDotOf(p, init);
      assert e == init + [e[|e| - 1]];
    } else {
      assert s[|s| - 1] == '.';
    }
  }

  /** A name with a '.' ends with that '.' and what follows it. */
  lemma EndsWithLastDot(s: string)
    requires '.' in s
    ensures EndsWith(s, "." + AfterLastDot(s))
  {
    var r := AfterLastDot(s);
    AfterLastDotSpec(s);
    var k := |s| - |r| - 1;
    assert s[k + 1..] == r;
    assert s[k..] == [s[k]] + s[k + 1..];
  }

  /** A name ends with "." + `ext` (for a dot-free `ext`) exactly when it
      has a '.' and `ext` is what follows its last '.'. */
  lemma EndsWithDotExt(s: string, ext: string)
    requires '.' !in ext
    ensures EndsWith(s, "." + ext) <==> '.' in s && AfterLastDot(s) == ext
  {
    var r := AfterLastDot(s);
    if '.' in s && r == ext {
      EndsWithLastDot(s);
    }
    if EndsWith(s, "." + ext) {
      var k := |s| - |ext| - 1;
      assert s == s[..k] + s[k..];
      AfterLastDotOf(s[..k], ext);
      assert s[k] == s[k..][0];
    }
  }

  /** Lower-casing keeps every '.' where it was. */
  lemma LowerKeepsDots(s: string)
    ensures '.' in Lower(s) <==> '.' in s
  {
    if '.' in s { var k :| 0 <= k < |s| && s[k] == '.'; assert Lower(s)[k] == '.'; }
    if '.' in Lower(s) { var k :| 0 <= k < |s| && Lower(s)[k] == '.'; assert s[k] == '.'; }
  }
}
