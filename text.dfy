/** The string operations of Ruby's core library that the two tools use,
    written out on `seq<char>` (case mapping is ASCII only). */
module Text {

  predicate StartsWith(s: string, p: string)
  {
    |p| <= |s| && s[..|p|] == p
  }

  predicate EndsWith(s: string, p: string)
  {
    |p| <= |s| && s[|s| - |p|..] == p
  }

  /** `p` occurs somewhere in `s` (recursive, so that it evaluates on literals). */
  predicate Contains(s: string, p: string)
    decreases |s|
  {
    StartsWith(s, p) || (s != [] && Contains(s[1..], p))
  }

  lemma {:induction false} ContainsAt(s: string, p: string, i: nat)
    requires i + |p| <= |s| && s[i..i + |p|] == p
    ensures Contains(s, p)
    decreases i
  {
    if i > 0 {
      assert s[1..][i - 1..i - 1 + |p|] == s[i..i + |p|];
      ContainsAt(s[1..], p, i - 1);
    }
  }

  predicate IsUpper(c: char) { 'A' <= c <= 'Z' }
  predicate IsLower(c: char) { 'a' <= c <= 'z' }
  predicate IsDigit(c: char) { '0' <= c <= '9' }

  /** `[A-Za-z0-9_]`, the characters `\w` and `\b` look at. */
  predicate IsWordChar(c: char) { IsUpper(c) || IsLower(c) || IsDigit(c) || c == '_' }

  predicate IsHexDigit(c: char) { IsDigit(c) || 'a' <= c <= 'f' || 'A' <= c <= 'F' }

  /** The ASCII whitespace that bare `String#split` and `\s` skip. */
  predicate IsSpace(c: char)
  {
    c == ' ' || c == '\t' || c == '\n' || c == '\r' || c == '\U{0B}' || c == '\U{0C}'
  }

  /** What `String#strip` removes at either end: that whitespace and NUL. */
  predicate IsStripped(c: char)
  {
    IsSpace(c) || c == '\0'
  }

  function ToLower(c: char): (d: char)
    ensures !IsUpper(d)
    ensures !IsUpper(c) ==> d == c
  {
    if IsUpper(c) then (c as int + 32) as char else c
  }

  function ToUpper(c: char): (d: char)
    ensures !IsLower(d)
    ensures !IsLower(c) ==> d == c
  {
    if IsLower(c) then (c as int - 32) as char else c
  }

  /** `String#downcase` */
  function Downcase(s: string): (r: string)
    ensures |r| == |s|
    ensures forall i :: 0 <= i < |s| ==> r[i] == ToLower(s[i])
  {
    if s == [] then [] else [ToLower(s[0])] + Downcase(s[1..])
  }

  /** `String#capitalize`: first character upper case, the rest lower case. */
  function Capitalize(w: string): (r: string)
    ensures |r| == |w|
    ensures w != [] ==> r[0] == ToUpper(w[0]) && r[1..] == Downcase(w[1..])
  {
    if w == [] then [] else [ToUpper(w[0])] + Downcase(w[1..])
  }

  predicate IsCapitalized(w: string)
  {
    w != [] && !IsLower(w[0]) && forall i :: 1 <= i < |w| ==> !IsUpper(w[i])
  }

  /** `str.sub(pat, '')` for a plain-string pattern: drop the leftmost occurrence. */
  function RemoveFirst(s: string, pat: string): (r: string)
    requires pat != []
    ensures !Contains(s, pat) ==> r == s
    decreases |s|
  {
    if |s| < |pat| then s
    else if s[..|pat|] == pat then s[|pat|..]
    else [s[0]] + RemoveFirst(s[1..], pat)
  }

  lemma RemoveFirstOfPrefix(pat: string, rest: string)
    requires pat != []
    ensures RemoveFirst(pat + rest, pat) == rest
  {
    assert (pat + rest)[..|pat|] == pat;
  }

  lemma {:induction false} ContainsLength(s: string, p: string)
    requires Contains(s, p)
    ensures |p| <= |s|
    decreases |s|
  {
    if !StartsWith(s, p) { ContainsLength(s[1..], p); }
  }

  /** `p` occurs in `s` starting at position `j`. */
  predicate OccursAt(s: string, p: string, j: int)
  {
    0 <= j && j + |p| <= |s| && s[j..j + |p|] == p
  }

  lemma OccursAtStart(s: string, p: string)
    ensures OccursAt(s, p, 0) <==> StartsWith(s, p)
  {
    if |p| <= |s| { assert s[0..0 + |p|] == s[..|p|]; }
  }

  lemma OccursAtTail(s: string, p: string, j: nat)
    requires s != []
    ensures OccursAt(s[1..], p, j) <==> OccursAt(s, p, j + 1)
  {
    if j + 1 + |p| <= |s| { assert s[1..][j..j + |p|] == s[j + 1..j + 1 + |p|]; }
  }

  /** `sub` removes the leftmost occurrence of the pattern, wherever it is:
      `i` is where it starts, and the pattern occurs nowhere before. */
  lemma {:induction false} RemoveFirstLeftmost(s: string, pat: string) returns (i: nat)
    requires pat != [] && Contains(s, pat)
    ensures OccursAt(s, pat, i)
    ensures forall j :: 0 <= j < i ==> !OccursAt(s, pat, j)
    ensures RemoveFirst(s, pat) == s[..i] + s[i + |pat|..]
    decreases |s|
  {
    ContainsLength(s, pat);
    OccursAtStart(s, pat);
    if StartsWith(s, pat) {
      i := 0;
    } else {
      var k := RemoveFirstLeftmost(s[1..], pat);
      i := k + 1;
      OccursAtTail(s, pat, k);
      forall j | 0 < j < i ensures !OccursAt(s, pat, j) {
        OccursAtTail(s, pat, j - 1);
      }
      RemoveFirstSkips(s, pat);
      SpliceTail(s, |pat|, k);
    }
  }

  lemma RemoveFirstSkips(s: string, pat: string)
    requires pat != [] && |pat| <= |s| && !StartsWith(s, pat)
    ensures RemoveFirst(s, pat) == [s[0]] + RemoveFirst(s[1..], pat)
  {
  }

  lemma SpliceTail(s: string, n: nat, k: nat)
    requires k + n <= |s| - 1
    ensures [s[0]] + (s[1..][..k] + s[1..][k + n..]) == s[..k + 1] + s[k + 1 + n..]
  {
    var u := s[1..];
    assert [s[0]] + u[..k] == s[..k + 1];
    assert u[k + n..] == s[k + 1 + n..];
  }

  /** `str.gsub(pat, rep)` for a plain-string pattern: replace every
      occurrence, scanning left to right without overlaps. */
  function ReplaceAll(s: string, pat: string, rep: string): (r: string)
    requires pat != []
    ensures !Contains(s, pat) ==> r == s
    decreases |s|
  {
    if |s| < |pat| then s
    else if s[..|pat|] == pat then rep + ReplaceAll(s[|pat|..], pat, rep)
    else [s[0]] + ReplaceAll(s[1..], pat, rep)
  }

  /** `gsub` scans from the left: up to the first occurrence of the pattern
      the text is kept, that occurrence is replaced, and the scan goes on
      after it. */
  lemma {:induction false} ReplaceAllLeftmost(a: string, pat: string, b: string, rep: string)
    requires pat != []
    requires forall j :: 0 <= j < |a| ==> !OccursAt(a + pat + b, pat, j)
    ensures ReplaceAll(a + pat + b, pat, rep) == a + rep + ReplaceAll(b, pat, rep)
    decreases |a|
  {
    var s := a + pat + b;
    if a == [] {
      assert s == pat + b;
      assert s[..|pat|] == pat && s[|pat|..] == b;
    } else {
      OccursAtStart(s, pat);
      var t := a[1..] + pat + b;
      assert s[1..] == t;
      forall j | 0 <= j < |a[1..]| ensures !OccursAt(t, pat, j) {
        OccursAtTail(s, pat, j);
      }
      ReplaceAllLeftmost(a[1..], pat, b, rep);
      assert ReplaceAll(s, pat, rep) == [a[0]] + ReplaceAll(t, pat, rep);
      assert a == [a[0]] + a[1..];
    }
  }

  /** Replace every occurrence of one of the characters `cs` by `d`
      (`gsub(/[-_]/, ' ')`). */
  function ReplaceChars(s: string, cs: set<char>, d: char): (r: string)
    ensures |r| == |s|
    ensures forall i :: 0 <= i < |s| ==> r[i] == if s[i] in cs then d else s[i]
  {
    if s == [] then [] else [if s[0] in cs then d else s[0]] + ReplaceChars(s[1..], cs, d)
  }

  /** Every field between occurrences of `sep`, empty ones included. */
  function SplitOn(s: string, sep: char): (r: seq<string>)
    ensures |r| >= 1
    ensures forall i :: 0 <= i < |r| ==> sep !in r[i]
    decreases |s|
  {
    if s == [] then [""]
    else
      var rest := SplitOn(s[1..], sep);
      if s[0] == sep then [""] + rest
      else [[s[0]] + rest[0]] + rest[1..]
  }

  function Join(ws: seq<string>, sep: string): string
  {
    if ws == [] then "" else if |ws| == 1 then ws[0] else ws[0] + sep + Join(ws[1..], sep)
  }

  lemma {:induction false} SplitOnJoin(s: string, sep: char)
    ensures Join(SplitOn(s, sep), [sep]) == s
    decreases |s|
  {
    if s != [] {
      var rest := SplitOn(s[1..], sep);
      SplitOnJoin(s[1..], sep);
      if s[0] == sep {
        assert SplitOn(s, sep) == [""] + rest;
        assert s == [sep] + s[1..];
      } else if |rest| == 1 {
        assert s == [s[0]] + rest[0];
      } else {
        assert Join(rest, [sep]) == rest[0] + [sep] + Join(rest[1..], [sep]);
        assert SplitOn(s, sep)[1..] == rest[1..];
        assert s == [s[0]] + s[1..];
      }
    }
  }

  /** Every field is empty exactly when the string is nothing but separators. */
  lemma {:induction false} SplitOnEmptyFields(s: string, sep: char)
    ensures (forall i :: 0 <= i < |SplitOn(s, sep)| ==> SplitOn(s, sep)[i] == "") <==>
            (forall i :: 0 <= i < |s| ==> s[i] == sep)
    decreases |s|
  {
    if s != [] {
      var rest := SplitOn(s[1..], sep);
      SplitOnEmptyFields(s[1..], sep);
      if s[0] == sep {
        var fs := SplitOn(s, sep);
        assert fs == [""] + rest;
        if forall i :: 0 <= i < |rest| ==> rest[i] == "" {
          forall i | 0 <= i < |s| ensures s[i] == sep {
            if i > 0 { assert s[i] == s[1..][i - 1]; }
          }
          forall i | 0 <= i < |fs| ensures fs[i] == "" {
            if i > 0 { assert fs[i] == rest[i - 1]; }
          }
        } else {
          var k :| 0 <= k < |rest| && rest[k] != "";
          assert fs[k + 1] == rest[k];
          var m :| 0 <= m < |s[1..]| && s[1..][m] != sep;
          assert s[m + 1] == s[1..][m];
        }
      } else {
        assert SplitOn(s, sep)[0] != "";
      }
    }
  }

  /** A string without the separator is a single field. */
  lemma {:induction false} SplitOnFree(s: string, sep: char)
    requires sep !in s
    ensures SplitOn(s, sep) == [s]
    decreases |s|
  {
    if s != [] {
      assert sep !in s[1..];
      SplitOnFree(s[1..], sep);
      assert s == [s[0]] + s[1..];
    }
  }

  /** A separator ends the fields of what precedes it. */
  lemma {:induction false} SplitOnAt(x: string, sep: char, y: string)
    ensures SplitOn(x + [sep] + y, sep) == SplitOn(x, sep) + SplitOn(y, sep)
    decreases |x|
  {
    var s := x + [sep] + y;
    if x == [] {
      assert s == [sep] + y && s[1..] == y;
    } else {
      assert s[0] == x[0] && s[1..] == x[1..] + [sep] + y;
      SplitOnAt(x[1..], sep, y);
      var rx := SplitOn(x[1..], sep);
      var ry := SplitOn(y, sep);
      var rs := rx + ry;
      assert SplitOn(s[1..], sep) == rs;
      if x[0] != sep {
        assert rs[0] == rx[0] && rs[1..] == rx[1..] + ry;
        assert SplitOn(x, sep) == [[x[0]] + rx[0]] + rx[1..];
      }
    }
  }

  /** Ruby's `split(sep)` drops the empty fields at the end. */
  function DropTrailingEmpty(fs: seq<string>): (r: seq<string>)
    ensures |r| <= |fs| && r == fs[..|r|]
    ensures r == [] || r[|r| - 1] != ""
    ensures forall i :: |r| <= i < |fs| ==> fs[i] == ""
  {
    if fs != [] && fs[|fs| - 1] == "" then DropTrailingEmpty(fs[..|fs| - 1]) else fs
  }

  /** `String#split` without arguments: the maximal runs of non-whitespace. */
  function Words(s: string): (r: seq<string>)
    ensures forall i :: 0 <= i < |r| ==> r[i] != [] && forall j :: 0 <= j < |r[i]| ==> !IsSpace(r[i][j])
    ensures s != [] && !IsSpace(s[0]) ==> r != [] && r[0][0] == s[0]
    decreases |s|
  {
    if s == [] then []
    else
      var rest := Words(s[1..]);
      if IsSpace(s[0]) then rest
      else if |s| > 1 && !IsSpace(s[1]) then [[s[0]] + rest[0]] + rest[1..]
      else [[s[0]]] + rest
  }

  predicate AllSpaces(s: string)
  {
    forall i :: 0 <= i < |s| ==> IsSpace(s[i])
  }

  /** Bare `split` finds no word exactly when the string is all whitespace. */
  lemma {:induction false} WordsNoneIffSpaces(s: string)
    ensures Words(s) == [] <==> AllSpaces(s)
    decreases |s|
  {
    if s != [] {
      WordsNoneIffSpaces(s[1..]);
      assert forall i :: 1 <= i < |s| ==> s[i] == s[1..][i - 1];
    }
  }

  /** Bare `split` skips leading whitespace, then takes the longest run of
      non-whitespace as the first word and goes on after it. */
  lemma {:induction false} WordsFirst(sp: string, w: string, rest: string)
    requires AllSpaces(sp)
    requires w != [] && forall j :: 0 <= j < |w| ==> !IsSpace(w[j])
    requires rest == [] || IsSpace(rest[0])
    ensures Words(sp + w + rest) == [w] + Words(rest)
    decreases |sp|
  {
    if sp == [] {
      assert sp + w + rest == w + rest;
      WordRun(w, rest);
    } else {
      assert (sp + w + rest)[1..] == sp[1..] + w + rest;
      assert IsSpace(sp[0]);
      WordsFirst(sp[1..], w, rest);
    }
  }

  lemma {:induction false} WordRun(w: string, rest: string)
    requires w != [] && forall j :: 0 <= j < |w| ==> !IsSpace(w[j])
    requires rest == [] || IsSpace(rest[0])
    ensures Words(w + rest) == [w] + Words(rest)
    decreases |w|
  {
    var s := w + rest;
    assert s[0] == w[0] && s[1..] == w[1..] + rest;
    if |w| > 1 {
      WordRun(w[1..], rest);
      assert s[1] == w[1];
      assert w == [w[0]] + w[1..];
    } else {
      assert w == [w[0]];
    }
  }

  /** `lstrip`: drop the leading whitespace and NUL characters. */
  function StripLeft(s: string): (r: string)
    ensures |r| <= |s| && r == s[|s| - |r|..]
    ensures r == [] || !IsStripped(r[0])
    ensures forall i :: 0 <= i < |s| - |r| ==> IsStripped(s[i])
  {
    if s != [] && IsStripped(s[0]) then StripLeft(s[1..]) else s
  }

  /** `rstrip`: drop the trailing whitespace and NUL characters. */
  function StripRight(s: string): (r: string)
    ensures |r| <= |s| && r == s[..|r|]
    ensures r == [] || !IsStripped(r[|r| - 1])
    ensures forall i :: |r| <= i < |s| ==> IsStripped(s[i])
  {
    if s != [] && IsStripped(s[|s| - 1]) then StripRight(s[..|s| - 1]) else s
  }

  /** `strip`: both ends. */
  function Strip(s: string): (r: string)
    ensures r == [] || (!IsStripped(r[0]) && !IsStripped(r[|r| - 1]))
  {
    StripRight(StripLeft(s))
  }

  /** `strip` removes exactly the padding: text between runs of whitespace
      and NUL, which neither starts nor ends with one, comes back unchanged. */
  lemma StripOfPadded(a: string, m: string, b: string)
    requires forall i :: 0 <= i < |a| ==> IsStripped(a[i])
    requires forall i :: 0 <= i < |b| ==> IsStripped(b[i])
    requires m == [] || (!IsStripped(m[0]) && !IsStripped(m[|m| - 1]))
    ensures Strip(a + m + b) == m
  {
    if m == [] {
      assert a + m + b == (a + b) + [];
      assert forall i :: |a| <= i < |a + b| ==> (a + b)[i] == b[i - |a|];
      StripLeftOfPadded(a + b, []);
    } else {
      assert a + m + b == a + (m + b);
      StripLeftOfPadded(a, m + b);
      StripRightOfPadded(m, b);
    }
  }

  /** Text that neither starts nor ends with whitespace or NUL is its own `strip`. */
  lemma StripUnpadded(m: string)
    requires m == [] || (!IsStripped(m[0]) && !IsStripped(m[|m| - 1]))
    ensures Strip(m) == m
  {
    StripLeftOfPadded([], m);
    assert [] + m == m;
    StripRightOfPadded(m, []);
    assert m + [] == m;
  }

  lemma StripLeftOfPadded(a: string, t: string)
    requires forall i :: 0 <= i < |a| ==> IsStripped(a[i])
    requires t == [] || !IsStripped(t[0])
    ensures StripLeft(a + t) == t
  {
    var l := StripLeft(a + t);
    assert l == (a + t)[|a|..] == t;
  }

  lemma StripRightOfPadded(t: string, b: string)
    requires t == [] || !IsStripped(t[|t| - 1])
    requires forall i :: 0 <= i < |b| ==> IsStripped(b[i])
    ensures StripRight(t + b) == t
  {
    var r := StripRight(t + b);
    assert r == (t + b)[..|t|] == t;
  }

  /** Every character of a word comes from the string: `k` is where. */
  lemma {:induction false} WordsKeepCharacters(s: string, i: nat, j: nat) returns (k: nat)
    requires i < |Words(s)| && j < |Words(s)[i]|
    ensures k < |s| && s[k] == Words(s)[i][j]
    decreases |s|, 1
  {
    if IsSpace(s[0]) {
      k := WordsKeepCharacters(s[1..], i, j);
      k := k + 1;
    } else if |s| > 1 && !IsSpace(s[1]) {
      k := WordKeepsCharactersJoined(s, i, j);
    } else {
      k := WordKeepsCharactersSingle(s, i, j);
    }
  }

  lemma {:induction false} WordKeepsCharactersJoined(s: string, i: nat, j: nat) returns (k: nat)
    requires |s| > 1 && !IsSpace(s[0]) && !IsSpace(s[1])
    requires i < |Words(s)| && j < |Words(s)[i]|
    ensures k < |s| && s[k] == Words(s)[i][j]
    decreases |s|, 0
  {
    var ws := Words(s);
    var rest := Words(s[1..]);
    assert ws == [[s[0]] + rest[0]] + rest[1..];
    if i == 0 && j == 0 {
      k := 0;
    } else if i == 0 {
      assert ws[0][j] == rest[0][j - 1];
      k := WordsKeepCharacters(s[1..], 0, j - 1);
      k := k + 1;
    } else {
      assert ws[i] == rest[i];
      k := WordsKeepCharacters(s[1..], i, j);
      k := k + 1;
    }
  }

  lemma {:induction false} WordKeepsCharactersSingle(s: string, i: nat, j: nat) returns (k: nat)
    requires s != [] && !IsSpace(s[0]) && (|s| == 1 || IsSpace(s[1]))
    requires i < |Words(s)| && j < |Words(s)[i]|
    ensures k < |s| && s[k] == Words(s)[i][j]
    decreases |s|, 0
  {
    var ws := Words(s);
    var rest := Words(s[1..]);
    assert ws == [[s[0]]] + rest;
    if i == 0 {
      k := 0;
    } else {
      assert ws[i] == rest[i - 1];
      k := WordsKeepCharacters(s[1..], i - 1, j);
      k := k + 1;
    }
  }

  /** A position where Ruby's `^` matches: the start of the string or of a line. */
  predicate LineStart(s: string, i: int)
  {
    i == 0 || (0 < i <= |s| && s[i - 1] == '\n')
  }

  /** A position where Ruby's `$` matches: the end of the string or of a line. */
  predicate LineEnd(s: string, j: int)
  {
    j == |s| || (0 <= j < |s| && s[j] == '\n')
  }

  /** `response.downcase == 'y'`: the answer to a yes/no prompt is yes. */
  predicate Confirmed(answer: string)
  {
    Downcase(answer) == "y"
  }

  lemma ConfirmedAnswers(answer: string)
    ensures Confirmed(answer) <==> answer == "y" || answer == "Y"
  {
    if Confirmed(answer) {
      assert |answer| == 1;
      assert ToLower(answer[0]) == 'y';
      assert answer == [answer[0]];
    }
  }
}
