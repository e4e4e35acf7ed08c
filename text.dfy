/**
 * The Ruby string primitives the parsers rely on: `strip`, `split(/\s+/, 2)`,
 * ASCII `downcase`/`upcase`, `delete '"'` and `include?`.
 */
module Text {

  /** A character matched by the regular-expression class `\s`. */
  predicate IsSpace(c: char) {
    c == ' ' || c == '\t' || c == '\n' || c == '\r' || c == '\U{0B}' || c == '\U{0C}'
  }

  /** A character removed by `String#strip`: the `\s` class and NUL. */
  predicate IsStripSpace(c: char) {
    IsSpace(c) || c == '\0'
  }

  predicate AllStripSpace(s: string) {
    forall k :: 0 <= k < |s| ==> IsStripSpace(s[k])
  }

  predicate NoSpace(s: string) {
    forall k :: 0 <= k < |s| ==> !IsSpace(s[k])
  }

  /** Neither end of `s` is a character `strip` would remove. */
  predicate IsStripped(s: string) {
    s == [] || (!IsStripSpace(s[0]) && !IsStripSpace(s[|s| - 1]))
  }

  /** `lstrip`'s cut: the first index at or after `i` that is not strip-space. */
  function StripStart(s: string, i: nat): (j: nat)
    requires i <= |s|
    ensures i <= j <= |s|
    ensures j < |s| ==> !IsStripSpace(s[j])
    ensures forall k :: i <= k < j ==> IsStripSpace(s[k])
    decreases |s| - i
  {
    if i < |s| && IsStripSpace(s[i]) then StripStart(s, i + 1) else i
  }

  /** `rstrip`'s cut: the end of `s[lo..j]` once its trailing strip-space is gone. */
  function StripEnd(s: string, lo: nat, j: nat): (e: nat)
    requires lo <= j <= |s|
    ensures lo <= e <= j
    ensures e > lo ==> !IsStripSpace(s[e - 1])
    ensures forall k :: e <= k < j ==> IsStripSpace(s[k])
  {
    if j > lo && IsStripSpace(s[j - 1]) then StripEnd(s, lo, j - 1) else j
  }

  /** Ruby's `String#strip`: drop the whitespace run at each end, keep the middle. */
  function Strip(s: string): (r: string)
    ensures IsStripped(r) && |r| <= |s|
  {
    var i := StripStart(s, 0);
    s[i..StripEnd(s, i, |s|)]
  }

  /** What `strip` keeps is a slice of its input with only strip-space around it. */
  lemma StripIsTrim(s: string)
    ensures exists i, j :: 0 <= i <= j <= |s| && Strip(s) == s[i..j] && AllStripSpace(s[..i]) && AllStripSpace(s[j..])
  {
    var i := StripStart(s, 0);
    var j := StripEnd(s, i, |s|);
    assert AllStripSpace(s[..i]) by {
      forall k | 0 <= k < i
        ensures IsStripSpace(s[..i][k])
      {
        assert s[..i][k] == s[k];
      }
    }
    assert AllStripSpace(s[j..]) by {
      forall k | 0 <= k < |s| - j
        ensures IsStripSpace(s[j..][k])
      {
        assert s[j..][k] == s[j + k];
      }
    }
  }

  /** A string that is already stripped comes back unchanged. */
  lemma {:induction false} StripStripped(s: string)
    requires IsStripped(s)
    ensures Strip(s) == s
  {
    assert StripStart(s, 0) == 0;
    assert StripEnd(s, 0, |s|) == |s|;
  }

  /** Index of the first `\s` character of `s`, or `|s|` when there is none. */
  function FirstSpace(s: string): (i: nat)
    ensures i <= |s|
    ensures i < |s| ==> IsSpace(s[i])
    ensures forall k :: 0 <= k < i ==> !IsSpace(s[k])
  {
    if s == [] then 0
    else if IsSpace(s[0]) then 0
    else 1 + FirstSpace(s[1..])
  }

  /** End of the whitespace run that starts at or before `i`. */
  function SpaceRunEnd(s: string, i: nat): (j: nat)
    requires i <= |s|
    ensures i <= j <= |s|
    ensures j < |s| ==> !IsSpace(s[j])
    ensures forall k :: i <= k < j ==> IsSpace(s[k])
    decreases |s| - i
  {
    if i < |s| && IsSpace(s[i]) then SpaceRunEnd(s, i + 1) else i
  }

  /**
   * Ruby's `s.split(/\s+/, 2)`: the empty string gives no field; otherwise the
   * text before the first whitespace run and everything after that run.
   */
  function Split2(s: string): (r: seq<string>)
    ensures s == [] <==> r == []
    ensures |r| <= 2
    ensures |r| == 1 ==> r[0] == s && NoSpace(s)
    ensures |r| == 2 <==> !NoSpace(s)
    ensures |r| == 2 ==> NoSpace(r[0]) && (r[1] == [] || !IsSpace(r[1][0]))
    ensures |r| == 2 ==> |r[0]| < |s| - |r[1]| && r[0] == s[..|r[0]|] && r[1] == s[|s| - |r[1]|..]
    ensures |r| == 2 ==> forall k :: |r[0]| <= k < |s| - |r[1]| ==> IsSpace(s[k])
  {
    if s == [] then []
    else
      var i := FirstSpace(s);
      if i == |s| then
        assert NoSpace(s);
        [s]
      else
        var j := SpaceRunEnd(s, i);
        assert IsSpace(s[i]);
        [s[..i], s[j..]]
  }

  /** Splitting a keyword, one space and a rest that does not start with whitespace. */
  lemma SplitKeyword(a: string, b: string)
    requires a != [] && NoSpace(a)
    requires b == [] || !IsSpace(b[0])
    ensures Split2(a + " " + b) == [a, b]
  {
    var s := a + " " + b;
    var i := FirstSpace(s);
    assert forall k :: 0 <= k < |a| ==> s[k] == a[k];
    assert IsSpace(s[|a|]);
    assert i == |a|;
    var j := SpaceRunEnd(s, i);
    assert |a| + 1 < |s| ==> s[|a| + 1] == b[0];
    assert j == |a| + 1;
    assert s[..i] == a && s[j..] == b;
  }

  function LowerChar(c: char): char {
    if 'A' <= c <= 'Z' then (c as int + 32) as char else c
  }

  function UpperChar(c: char): char {
    if 'a' <= c <= 'z' then (c as int - 32) as char else c
  }

  /** Ruby's `downcase`, restricted to ASCII letters. */
  function Downcase(s: string): (r: string)
    ensures |r| == |s| && forall k :: 0 <= k < |s| ==> r[k] == LowerChar(s[k])
  {
    seq(|s|, k requires 0 <= k < |s| => LowerChar(s[k]))
  }

  /** Ruby's `upcase`, restricted to ASCII letters. */
  function Upcase(s: string): (r: string)
    ensures |r| == |s| && forall k :: 0 <= k < |s| ==> r[k] == UpperChar(s[k])
  {
    seq(|s|, k requires 0 <= k < |s| => UpperChar(s[k]))
  }

  predicate HasCapital(s: string) {
    exists k :: 0 <= k < |s| && 'A' <= s[k] <= 'Z'
  }

  predicate HasSmall(s: string) {
    exists k :: 0 <= k < |s| && 'a' <= s[k] <= 'z'
  }

  /**
   * `downcase` leaves no capital letter, changes nothing but capitals, is
   * the identity on a text without capitals, and so is idempotent.
   */
  lemma DowncaseLaws(s: string)
    ensures !HasCapital(Downcase(s))
    ensures forall k :: 0 <= k < |s| && Downcase(s)[k] != s[k] ==> 'A' <= s[k] <= 'Z'
    ensures !HasCapital(s) ==> Downcase(s) == s
    ensures Downcase(Downcase(s)) == Downcase(s)
  {
    var d := Downcase(s);
    assert !HasCapital(d) by {
      forall k | 0 <= k < |d| ensures !('A' <= d[k] <= 'Z') {
        assert d[k] == LowerChar(s[k]);
      }
    }
    if !HasCapital(s) {
      assert forall k :: 0 <= k < |s| ==> d[k] == s[k];
    }
    assert forall k :: 0 <= k < |d| ==> Downcase(d)[k] == d[k];
  }

  /**
   * `upcase` leaves no small letter, changes nothing but small letters, is
   * the identity on a text without small letters, and so is idempotent.
   */
  lemma UpcaseLaws(s: string)
    ensures !HasSmall(Upcase(s))
    ensures forall k :: 0 <= k < |s| && Upcase(s)[k] != s[k] ==> 'a' <= s[k] <= 'z'
    ensures !HasSmall(s) ==> Upcase(s) == s
    ensures Upcase(Upcase(s)) == Upcase(s)
  {
    var u := Upcase(s);
    assert !HasSmall(u) by {
      forall k | 0 <= k < |u| ensures !('a' <= u[k] <= 'z') {
        assert u[k] == UpperChar(s[k]);
      }
    }
    if !HasSmall(s) {
      assert forall k :: 0 <= k < |s| ==> u[k] == s[k];
    }
    assert forall k :: 0 <= k < |u| ==> Upcase(u)[k] == u[k];
  }

  predicate IsLowerWord(s: string) {
    forall k :: 0 <= k < |s| ==> 'a' <= s[k] <= 'z'
  }

  /** Lower-casing undoes upper-casing on a lower-case word. */
  lemma DowncaseUpcase(s: string)
    requires IsLowerWord(s)
    ensures Downcase(Upcase(s)) == s
  {
    var r := Downcase(Upcase(s));
    assert forall k :: 0 <= k < |s| ==> r[k] == s[k];
  }

  /** Upper-casing a lower-case word gives capital letters only. */
  lemma UpcaseWord(s: string)
    requires s != [] && IsLowerWord(s)
    ensures IsLineHead(Upcase(s))
  {
    assert 'a' <= s[0] <= 'z';
  }

  /** A word that can start a line: non-empty, no whitespace, not starting with NUL. */
  predicate IsLineHead(u: string) {
    u != [] && NoSpace(u) && !IsStripSpace(u[0])
  }

  /** What can follow a line head and one space: non-empty, stripped, not starting with whitespace. */
  predicate IsLineRest(m: string) {
    m != [] && !IsSpace(m[0]) && IsStripped(m)
  }

  /** A line made of a head, one space and a rest is stripped and splits back into the two. */
  lemma KeywordLine(u: string, m: string)
    requires IsLineHead(u) && IsLineRest(m)
    ensures var text := u + " " + m; text != [] && Strip(text) == text && Split2(text) == [u, m]
  {
    var text := u + " " + m;
    assert Split2(text) == [u, m] by {
      SplitKeyword(u, m);
    }
    assert Strip(text) == text by {
      assert text[0] == u[0] && text[|text| - 1] == m[|m| - 1];
      StripStripped(text);
    }
  }

  /** A string whose lower-case form is a lower-case word has no whitespace or NUL in it. */
  lemma DowncaseWordIsStripped(s: string)
    requires IsLowerWord(Downcase(s))
    ensures forall k :: 0 <= k < |s| ==> !IsStripSpace(s[k])
    ensures IsStripped(s) && NoSpace(s)
  {
    assert forall k :: 0 <= k < |s| ==> Downcase(s)[k] == LowerChar(s[k]);
  }

  /** Ruby's `delete '"'`: every double quote goes, everything else stays in order. */
  function DeleteQuotes(s: string): (r: string)
    ensures '"' !in r
    ensures forall c :: c in r <==> c in s && c != '"'
    ensures '"' !in s ==> r == s
  {
    if s == [] then []
    else if s[0] == '"' then DeleteQuotes(s[1..])
    else [s[0]] + DeleteQuotes(s[1..])
  }

  lemma {:induction false} DeleteQuotesAppend(a: string, b: string)
    ensures DeleteQuotes(a + b) == DeleteQuotes(a) + DeleteQuotes(b)
  {
    if a != [] {
      assert (a + b)[1..] == a[1..] + b;
      DeleteQuotesAppend(a[1..], b);
    } else {
      assert a + b == b;
    }
  }

  /** Removing the quotes around an unquoted text gives the text back. */
  lemma Unquote(c: string)
    requires '"' !in c
    ensures DeleteQuotes("\"" + c + "\"") == c
  {
    DeleteQuotesAppend("\"" + c, "\"");
    DeleteQuotesAppend("\"", c);
  }

  /** `m` occurs in `s` starting at index `i`. */
  predicate OccursAt(s: string, m: string, i: int) {
    0 <= i && i + |m| <= |s| && forall k :: 0 <= k < |m| ==> s[i + k] == m[k]
  }

  /** Ruby's `include?`: `m` occurs somewhere in `s`. */
  predicate Contains(s: string, m: string) {
    exists i :: 0 <= i <= |s| - |m| && OccursAt(s, m, i)
  }

  /** The slice of `s` at `i` of the length of `m` is `m`. */
  predicate SliceIs(s: string, m: string, i: int) {
    0 <= i && i + |m| <= |s| && s[i..i + |m|] == m
  }

  /** `include?` finds `m` as a slice of `s`. */
  lemma ContainsSlice(s: string, m: string)
    ensures Contains(s, m) <==> exists i :: SliceIs(s, m, i)
  {
    if Contains(s, m) {
      var i :| 0 <= i <= |s| - |m| && OccursAt(s, m, i);
      assert s[i..i + |m|] == m;
      assert SliceIs(s, m, i);
    }
    if exists i :: SliceIs(s, m, i) {
      var i :| SliceIs(s, m, i);
      var w := s[i..i + |m|];
      assert forall k :: 0 <= k < |m| ==> w[k] == s[i + k];
      assert OccursAt(s, m, i);
    }
  }

  lemma ContainsAt(s: string, m: string, i: int)
    requires OccursAt(s, m, i)
    ensures Contains(s, m)
  {
  }

  /** Whatever occurs in the middle piece occurs in the whole. */
  lemma ContainsInMiddle(a: string, b: string, c: string, m: string)
    requires Contains(b, m)
    ensures Contains(a + b + c, m)
  {
    var i :| 0 <= i <= |b| - |m| && OccursAt(b, m, i);
    assert forall k :: 0 <= k < |m| ==> (a + b + c)[|a| + i + k] == m[k];
    ContainsAt(a + b + c, m, |a| + i);
  }

  /** A string containing `m` holds every character of `m`. */
  lemma CharsOfContains(s: string, m: string, j: nat)
    requires j < |m|
    ensures Contains(s, m) ==> m[j] in s
  {
    if Contains(s, m) {
      var i :| 0 <= i <= |s| - |m| && OccursAt(s, m, i);
      assert s[i + j] == m[j];
    }
  }

  /** No two adjacent hyphens. */
  predicate NoDoubleDash(s: string) {
    forall k :: 0 <= k < |s| - 1 ==> !(s[k] == '-' && s[k + 1] == '-')
  }

  lemma NoDoubleDashOf(s: string)
    requires !Contains(s, "--")
    ensures NoDoubleDash(s)
  {
    forall k | 0 <= k < |s| - 1
      ensures !(s[k] == '-' && s[k + 1] == '-')
    {
      assert s[k] == '-' && s[k + 1] == '-' ==> OccursAt(s, "--", k);
    }
  }

  /** A string containing `m`, whose first two characters are hyphens, has two adjacent hyphens. */
  lemma DashesOfContains(s: string, m: string)
    requires |m| >= 2 && m[0] == '-' && m[1] == '-'
    ensures Contains(s, m) ==> !NoDoubleDash(s)
  {
    if Contains(s, m) {
      var i :| 0 <= i <= |s| - |m| && OccursAt(s, m, i);
      assert s[i] == m[0] && s[i + 1] == m[1];
    }
  }

  lemma NoDoubleDashJoin(a: string, b: string)
    requires NoDoubleDash(a) && NoDoubleDash(b)
    requires a == [] || b == [] || a[|a| - 1] != '-' || b[0] != '-'
    ensures NoDoubleDash(a + b)
  {
    var s := a + b;
    forall k | 0 <= k < |s| - 1
      ensures !(s[k] == '-' && s[k + 1] == '-')
    {
      if k + 1 < |a| {
        assert s[k] == a[k] && s[k + 1] == a[k + 1];
      } else if k >= |a| {
        assert s[k] == b[k - |a|] && s[k + 1] == b[k + 1 - |a|];
      } else {
        assert s[k] == a[|a| - 1] && s[k + 1] == b[0];
      }
    }
  }

  /** Lines joined by Ruby's `"...\n"` templates: every line followed by a newline. */
  function JoinLines(lines: seq<string>): (s: string)
    ensures lines == [] <==> s == []
    ensures s != [] ==> s[|s| - 1] == '\n'
  {
    if lines == [] then [] else JoinLines(lines[..|lines| - 1]) + lines[|lines| - 1] + "\n"
  }

  lemma {:induction false} JoinAppend(a: seq<string>, b: seq<string>)
    ensures JoinLines(a + b) == JoinLines(a) + JoinLines(b)
  {
    if b != [] {
      var pre := b[..|b| - 1];
      assert (a + b)[..|a + b| - 1] == a + pre;
      JoinAppend(a, pre);
    } else {
      assert a + b == a;
    }
  }

  lemma JoinOne(l: string)
    ensures JoinLines([l]) == l + "\n"
  {
    assert [l][..0] == [];
  }

  /** An occurrence of a newline-free `m` covers no newline. */
  lemma OccurrenceAvoids(s: string, m: string, i: int, j: int)
    requires OccursAt(s, m, i) && '\n' !in m
    ensures i <= j < i + |m| ==> s[j] != '\n'
  {
    if i <= j < i + |m| {
      assert s[j] == m[j - i];
    }
  }

  /** An occurrence of a newline-free `m` in a string cut after a newline lies on one side. */
  lemma ContainsSplit(a: string, b: string, m: string)
    requires a == [] || a[|a| - 1] == '\n'
    requires '\n' !in m && Contains(a + b, m)
    ensures Contains(a, m) || Contains(b, m)
  {
    var s := a + b;
    var i :| 0 <= i <= |s| - |m| && OccursAt(s, m, i);
    OccurrenceAvoids(s, m, i, |a| - 1);
    if i + |m| <= |a| {
      assert forall k :: 0 <= k < |m| ==> a[i + k] == m[k];
      ContainsAt(a, m, i);
    } else {
      assert forall k :: 0 <= k < |m| ==> b[i - |a| + k] == m[k];
      ContainsAt(b, m, i - |a|);
    }
  }

  /** A newline-free `m` occurs in a line followed by a newline only within the line. */
  lemma ContainsLine(l: string, m: string)
    requires '\n' !in m && Contains(l + "\n", m)
    ensures Contains(l, m)
  {
    var s := l + "\n";
    var i :| 0 <= i <= |s| - |m| && OccursAt(s, m, i);
    if m == [] {
      ContainsAt(l, m, 0);
    } else {
      assert s[|l|] == '\n';
      OccurrenceAvoids(s, m, i, |l|);
      assert forall k :: 0 <= k < |m| ==> l[i + k] == m[k];
      ContainsAt(l, m, i);
    }
  }

  /** A newline-free `m` missing from every line is missing from the joined lines. */
  lemma {:induction false} NotInJoin(lines: seq<string>, m: string)
    requires m != [] && '\n' !in m && forall k :: 0 <= k < |lines| ==> !Contains(lines[k], m)
    ensures !Contains(JoinLines(lines), m)
  {
    if lines != [] {
      var pre := lines[..|lines| - 1];
      var l := lines[|lines| - 1];
      NotInJoin(pre, m);
      if Contains(JoinLines(lines), m) {
        assert JoinLines(lines) == JoinLines(pre) + (l + "\n");
        ContainsSplit(JoinLines(pre), l + "\n", m);
        ContainsLine(l, m);
        assert false;
      }
    }
  }

  /** What occurs in one line occurs in the joined lines. */
  lemma {:induction false} InJoin(lines: seq<string>, k: nat, m: string)
    requires k < |lines| && Contains(lines[k], m)
    ensures Contains(JoinLines(lines), m)
  {
    var pre := lines[..|lines| - 1];
    var l := lines[|lines| - 1];
    assert JoinLines(lines) == JoinLines(pre) + l + "\n";
    if k == |lines| - 1 {
      ContainsInMiddle(JoinLines(pre), l, "\n", m);
    } else {
      assert pre[k] == lines[k];
      InJoin(pre, k, m);
      ContainsInMiddle([], JoinLines(pre), l + "\n", m);
      assert [] + JoinLines(pre) + (l + "\n") == JoinLines(lines);
    }
  }
}
