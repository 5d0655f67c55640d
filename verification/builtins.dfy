/** Python values and the `str` built-ins that the sentiment analyser and the
    configuration rely on, written as total functions over Dafny strings.
    Each function names the Python operation it stands for. */
module Builtins {

  datatype Option<+T> = None | Some(value: T)

  /** A Python value as the analyser meets it: `None`, a `str`, or any other
      object. The code only ever converts such an object with `str()` or tests
      its truth, so an object is known here by exactly those two answers. */
  datatype Value = Null | Str(s: string) | Object(repr: string, truthy: bool)

  /** `bool(v)`: `None` and the empty string are false; any other object
      answers for itself. */
  predicate Truthy(v: Value) {
    match v
    case Null => false
    case Str(s) => s != ""
    case Object(_, t) => t
  }

  /** `str(v)` */
  function ToStr(v: Value): string {
    match v
    case Null => "None"
    case Str(s) => s
    case Object(repr, _) => repr
  }

  /** `c.isspace()`. The same test decides what `split()` and `strip()` treat
      as whitespace and what the regular-expression class `\s` matches in a
      `str` pattern. */
  predicate IsSpace(c: char) {
    || c == ' '
    || '\t' <= c <= '\r'
    || '\U{1C}' <= c <= '\U{1F}'
    || c == '\U{85}' || c == '\U{A0}' || c == '\U{1680}'
    || '\U{2000}' <= c <= '\U{200A}'
    || c == '\U{2028}' || c == '\U{2029}' || c == '\U{202F}' || c == '\U{205F}' || c == '\U{3000}'
  }

  predicate IsAsciiUpper(c: char) { 'A' <= c <= 'Z' }

  predicate NoSpace(w: string) { forall i :: 0 <= i < |w| ==> !IsSpace(w[i]) }

  predicate AllSpace(s: string) { forall i :: 0 <= i < |s| ==> IsSpace(s[i]) }

  /** A non-empty run of non-whitespace: what `split()` yields. */
  predicate IsWord(w: string) { w != [] && NoSpace(w) }

  /** `s.startswith(p)` */
  predicate StartsWith(s: string, p: string)
    ensures StartsWith(s, p) <==> exists t :: s == p + t
  {
    if |p| <= |s| && s[..|p|] == p then
      assert s == p + s[|p|..];
      true
    else
      false
  }

  /** Whitespace only as single spaces, each between two non-whitespace
      characters: no leading, trailing or doubled whitespace. */
  ghost predicate Collapsed(s: string) {
    && (forall i :: 0 <= i < |s| && IsSpace(s[i]) ==> s[i] == ' ')
    && (s != [] ==> !IsSpace(s[0]) && !IsSpace(s[|s| - 1]))
    && (forall i, j :: 0 <= i < j < |s| && j == i + 1 ==> !IsSpace(s[i]) || !IsSpace(s[j]))
  }

  // ---------------------------------------------------------------------
  // str.lower

  /** The lower-case form of one character. ASCII capitals become their
      small letters; U+0130 (capital I with dot above) becomes "i" followed by
      U+0307 and U+212A (Kelvin sign) becomes "k", the two characters outside
      ASCII whose lower-case form contains an ASCII letter. Every other
      character is kept as it is: where Python maps it to another non-ASCII
      letter, both are characters the analyser's filter deletes. */
  function LowerChar(c: char): (r: string)
    ensures forall x :: x in r ==> !IsAsciiUpper(x)
    ensures IsAsciiUpper(c) ==> r == [(c as int - 'A' as int + 'a' as int) as char]
    ensures LowerFixed(c) ==> r == [c]
  {
    if IsAsciiUpper(c) then [(c as int + 32) as char]
    else if c == '\U{130}' then "i\U{307}"
    else if c == '\U{212A}' then "k"
    else [c]
  }

  /** `s.lower()` */
  function Lower(s: string): (r: string)
    ensures forall c :: c in r ==> !IsAsciiUpper(c)
  {
    if s == [] then [] else LowerChar(s[0]) + Lower(s[1..])
  }

  /** Lower-casing works character by character: the lower-case form of a
      concatenation is the concatenation of the lower-case forms, and a single
      character becomes its own lower-case form. Together these fix `Lower`
      on every string. */
  lemma {:induction false} LowerAppend(a: string, b: string)
    ensures Lower(a + b) == Lower(a) + Lower(b)
    ensures |a| == 1 ==> Lower(a) == LowerChar(a[0])
    decreases |a|
  {
    if a == [] {
      assert a + b == b;
    } else {
      assert (a + b)[0] == a[0];
      assert (a + b)[1..] == a[1..] + b;
      LowerAppend(a[1..], b);
      if |a| == 1 {
        assert a[1..] == [];
      }
    }
  }

  /** A character that lower-casing leaves as it is. */
  predicate LowerFixed(c: char) { !IsAsciiUpper(c) && c != '\U{130}' && c != '\U{212A}' }

  /** Lower-casing changes nothing in a string without capitals. */
  lemma {:induction false} LowerUnchanged(s: string)
    requires forall i :: 0 <= i < |s| ==> LowerFixed(s[i])
    ensures Lower(s) == s
  {
    if s != [] {
      assert forall i :: 0 <= i < |s[1..]| ==> s[1..][i] == s[i + 1];
      LowerUnchanged(s[1..]);
    }
  }

  // ---------------------------------------------------------------------
  // str.strip

  /** `s.lstrip()` */
  function TrimStart(s: string): (r: string)
    ensures |r| <= |s| && r == s[|s| - |r|..]
    ensures forall i :: 0 <= i < |s| - |r| ==> IsSpace(s[i])
    ensures r == [] || !IsSpace(r[0])
  {
    if s != [] && IsSpace(s[0]) then
      var r := TrimStart(s[1..]);
      assert forall i :: 1 <= i < |s| ==> s[i] == s[1..][i - 1];
      r
    else s
  }

  /** `s.rstrip()` */
  function TrimEnd(s: string): (r: string)
    ensures |r| <= |s| && r == s[..|r|]
    ensures forall i :: |r| <= i < |s| ==> IsSpace(s[i])
    ensures r == [] || !IsSpace(r[|r| - 1])
  {
    if s != [] && IsSpace(s[|s| - 1]) then TrimEnd(s[..|s| - 1]) else s
  }

  /** `s.strip()`: empty exactly when `s` holds nothing but whitespace. */
  function Strip(s: string): (r: string)
    ensures r == [] <==> AllSpace(s)
    ensures r != [] ==> !IsSpace(r[0]) && !IsSpace(r[|r| - 1])
  {
    var t := TrimStart(s);
    assert forall i :: 0 <= i < |t| ==> t[i] == s[|s| - |t| + i];
    TrimEnd(t)
  }

  // ---------------------------------------------------------------------
  // str.split and str.join

  /** The leading word of `s`: its longest prefix free of whitespace. */
  function WordAt(s: string): (w: string)
    ensures |w| <= |s| && w == s[..|w|] && NoSpace(w)
    ensures |w| == |s| || IsSpace(s[|w|])
    ensures s != [] && !IsSpace(s[0]) ==> w != []
  {
    if s == [] || IsSpace(s[0]) then [] else [s[0]] + WordAt(s[1..])
  }

  /** `s.split()`: the maximal runs of non-whitespace, in order. */
  function Split(s: string): (ws: seq<string>)
    ensures forall i :: 0 <= i < |ws| ==> IsWord(ws[i])
    decreases |s|
  {
    if s == [] then []
    else if IsSpace(s[0]) then Split(s[1..])
    else
      var w := WordAt(s);
      var rest := Split(s[|w|..]);
      var ws := [w] + rest;
      assert forall i :: 1 <= i < |ws| ==> ws[i] == rest[i - 1];
      ws
  }

  /** Text of whitespace only has no words. */
  lemma {:induction false} SplitAllSpace(s: string)
    requires AllSpace(s)
    ensures Split(s) == []
    decreases |s|
  {
    if s != [] {
      assert AllSpace(s[1..]) by {
        forall i | 0 <= i < |s[1..]| ensures IsSpace(s[1..][i]) {
          assert s[1..][i] == s[i + 1];
        }
      }
      SplitAllSpace(s[1..]);
    }
  }

  /** `" ".join(ws)` */
  function JoinSpace(ws: seq<string>): (r: string)
    ensures ws == [] ==> r == ""
    ensures ws != [] ==> |ws[0]| <= |r| && r[..|ws[0]|] == ws[0]
    ensures |ws| >= 2 ==> |ws[0]| < |r| && r[|ws[0]|] == ' '
  {
    if ws == [] then ""
    else if |ws| == 1 then ws[0]
    else ws[0] + " " + JoinSpace(ws[1..])
  }

  lemma {:induction false} WordAtWord(w: string, rest: string)
    requires NoSpace(w)
    requires rest == [] || IsSpace(rest[0])
    ensures WordAt(w + rest) == w
    decreases |w|
  {
    if w != [] {
      assert (w + rest)[1..] == w[1..] + rest;
      WordAtWord(w[1..], rest);
    } else {
      assert w + rest == rest;
    }
  }

  lemma SplitLeadingSpace(c: char, s: string)
    requires IsSpace(c)
    ensures Split([c] + s) == Split(s)
  {
    assert ([c] + s)[1..] == s;
  }

  lemma SplitWordFirst(s: string)
    requires s != [] && !IsSpace(s[0])
    ensures Split(s) == [WordAt(s)] + Split(s[|WordAt(s)|..])
  {
  }

  /** Splitting a space-joined list of words gives the words back. */
  lemma {:induction false} SplitJoinSpace(ws: seq<string>)
    requires forall i :: 0 <= i < |ws| ==> IsWord(ws[i])
    ensures Split(JoinSpace(ws)) == ws
  {
    if ws == [] {
    } else if |ws| == 1 {
      var w := ws[0];
      WordAtWord(w, []);
      assert w + [] == w;
      SplitWordFirst(w);
      assert w[|w|..] == [];
    } else {
      var w, rest := ws[0], JoinSpace(ws[1..]);
      var s := w + " " + rest;
      assert s == w + ([' '] + rest);
      WordAtWord(w, [' '] + rest);
      SplitWordFirst(s);
      assert s[|w|..] == [' '] + rest;
      SplitLeadingSpace(' ', rest);
      SplitJoinSpace(ws[1..]);
    }
  }

  /** A word splits to itself. */
  lemma SplitWord(w: string)
    requires IsWord(w)
    ensures Split(w) == [w]
  {
    WordAtWord(w, []);
    assert w + [] == w;
    assert w[|w|..] == [];
  }

  /** Leading whitespace contributes no word. */
  lemma {:induction false} SplitSpaces(g: string, t: string)
    requires AllSpace(g)
    ensures Split(g + t) == Split(t)
    decreases |g|
  {
    if g != [] {
      var u := g[1..] + t;
      assert g + t == [g[0]] + u;
      assert IsSpace(g[0]);
      SplitLeadingSpace(g[0], u);
      assert AllSpace(g[1..]) by {
        forall i | 0 <= i < |g[1..]| ensures IsSpace(g[1..][i]) {
          assert g[1..][i] == g[i + 1];
        }
      }
      SplitSpaces(g[1..], t);
    } else {
      assert g + t == t;
    }
  }

  /** A word followed by nothing or by whitespace is the first word. */
  lemma SplitWordThen(w: string, tail: string)
    requires IsWord(w)
    requires tail == [] || IsSpace(tail[0])
    ensures Split(w + tail) == [w] + Split(tail)
  {
    WordAtWord(w, tail);
    var s := w + tail;
    assert s[0] == w[0];
    SplitWordFirst(s);
    assert s[|w|..] == tail;
  }

  /** A whitespace character separates words: what lies before it and what
      lies after it split independently. With `SplitWord` and `Split("") ==
      []` this fixes `Split` on every string as the maximal non-whitespace
      runs in order. */
  lemma {:induction false} SplitAtSpace(a: string, c: char, b: string)
    requires IsSpace(c)
    ensures Split(a + [c] + b) == Split(a) + Split(b)
    decreases |a|
  {
    if a == [] {
      assert a + [c] + b == [c] + b;
      SplitLeadingSpace(c, b);
    } else if IsSpace(a[0]) {
      SpaceHeadBothSides(a, c, b);
      SplitAtSpace(a[1..], c, b);
    } else {
      var w := WordAt(a);
      WordHeadBothSides(a, c, b);
      SplitAtSpace(a[|w|..], c, b);
      ConsConcat(w, Split(a[|w|..]), Split(b), Split(a[|w|..] + [c] + b), Split(a + [c] + b), Split(a));
    }
  }

  lemma ConsConcat<T>(w: T, x: seq<T>, y: seq<T>, z: seq<T>, l: seq<T>, r: seq<T>)
    requires l == [w] + z && z == x + y && r == [w] + x
    ensures l == r + y
  {
  }

  lemma SpaceHeadBothSides(a: string, c: char, b: string)
    requires a != [] && IsSpace(a[0])
    ensures Split(a) == Split(a[1..])
    ensures Split(a + [c] + b) == Split(a[1..] + [c] + b)
  {
    assert a == [a[0]] + a[1..];
    SplitLeadingSpace(a[0], a[1..]);
    assert a + [c] + b == [a[0]] + (a[1..] + [c] + b);
    SplitLeadingSpace(a[0], a[1..] + [c] + b);
  }

  lemma WordHeadBothSides(a: string, c: char, b: string)
    requires a != [] && !IsSpace(a[0]) && IsSpace(c)
    ensures |WordAt(a)| > 0
    ensures Split(a) == [WordAt(a)] + Split(a[|WordAt(a)|..])
    ensures Split(a + [c] + b) == [WordAt(a)] + Split(a[|WordAt(a)|..] + [c] + b)
  {
    var w := WordAt(a);
    var rest := a[|w|..];
    var tail := rest + [c] + b;
    assert a == w + rest;
    SplitWordThen(w, rest);
    assert a + [c] + b == w + tail;
    assert tail[0] == if rest == [] then c else rest[0];
    SplitWordThen(w, tail);
  }

  /** Joining words with single spaces leaves no leading, trailing or doubled
      whitespace. */
  lemma {:induction false} JoinSpaceCollapsed(ws: seq<string>)
    requires forall i :: 0 <= i < |ws| ==> IsWord(ws[i])
    ensures Collapsed(JoinSpace(ws))
  {
    if |ws| == 1 {
      assert NoSpace(ws[0]);
    } else if |ws| > 1 {
      var w, rest := ws[0], JoinSpace(ws[1..]);
      JoinSpaceCollapsed(ws[1..]);
      var s := w + " " + rest;
      assert NoSpace(w);
      assert |s| == |w| + 1 + |rest|;
      forall i | 0 <= i < |s| ensures IsSpace(s[i]) ==> s[i] == ' ' {
        if i > |w| { assert s[i] == rest[i - |w| - 1]; }
      }
      assert s[|s| - 1] == rest[|rest| - 1];
      forall i, j | 0 <= i < j < |s| && j == i + 1 ensures !IsSpace(s[i]) || !IsSpace(s[j]) {
        if i == |w| {
          assert s[j] == rest[0];
        } else if i > |w| {
          assert s[i] == rest[i - |w| - 1] && s[j] == rest[j - |w| - 1];
        }
      }
    }
  }

  lemma CollapsedAfterSpace(s: string, k: nat)
    requires Collapsed(s) && k < |s| && IsSpace(s[k])
    ensures s[k] == ' ' && k + 1 < |s|
    ensures Collapsed(s[k + 1..])
  {
    assert k != |s| - 1;
    var r := s[k + 1..];
    forall i | 0 <= i < |r| ensures IsSpace(r[i]) ==> r[i] == ' ' {
      assert r[i] == s[k + 1 + i];
    }
    assert r[|r| - 1] == s[|s| - 1];
    assert !IsSpace(r[0]) by {
      assert r[0] == s[k + 1];
    }
    forall i, j | 0 <= i < j < |r| && j == i + 1 ensures !IsSpace(r[i]) || !IsSpace(r[j]) {
      assert r[i] == s[k + 1 + i] && r[j] == s[k + 1 + j];
    }
  }

  lemma SpaceSplitsAt(s: string, k: nat)
    requires k < |s| && s[k] == ' '
    ensures s[k..] == [' '] + s[k + 1..]
    ensures s == s[..k] + " " + s[k + 1..]
  {
  }

  /** A collapsed string is its own `" ".join(s.split())`. */
  lemma {:induction false} JoinSplitCollapsed(s: string)
    requires Collapsed(s)
    ensures JoinSpace(Split(s)) == s
    decreases |s|
  {
    if s != [] {
      var w := WordAt(s);
      SplitWordFirst(s);
      if |w| == |s| {
        assert w == s;
        assert s[|w|..] == [];
      } else {
        var k := |w|;
        CollapsedAfterSpace(s, k);
        var r := s[k + 1..];
        SpaceSplitsAt(s, k);
        SplitLeadingSpace(' ', r);
        JoinSplitCollapsed(r);
        assert Split(r) != [];
        assert ([w] + Split(r))[1..] == Split(r);
      }
    }
  }

  /** Every character of every word `split()` returns satisfies `ok` when
      every non-whitespace character of the input does. */
  lemma {:induction false} SplitKeepsChars(s: string, ok: char -> bool)
    requires forall i :: 0 <= i < |s| ==> ok(s[i]) || IsSpace(s[i])
    ensures forall i, j :: 0 <= i < |Split(s)| && 0 <= j < |Split(s)[i]| ==> ok(Split(s)[i][j])
    decreases |s|
  {
    if s != [] && IsSpace(s[0]) {
      SplitKeepsChars(s[1..], ok);
    } else if s != [] {
      var w := WordAt(s);
      forall j | 0 <= j < |w| ensures ok(w[j]) {
        assert w[j] == s[j];
      }
      var rest := s[|w|..];
      forall j | 0 <= j < |rest| ensures ok(rest[j]) || IsSpace(rest[j]) {
        assert rest[j] == s[|w| + j];
      }
      SplitKeepsChars(rest, ok);
      WordsKeepCons(w, Split(rest), ok);
    }
  }

  lemma WordsKeepCons(w: string, tail: seq<string>, ok: char -> bool)
    requires forall j :: 0 <= j < |w| ==> ok(w[j])
    requires forall i, j :: 0 <= i < |tail| && 0 <= j < |tail[i]| ==> ok(tail[i][j])
    ensures forall i, j :: 0 <= i < |[w] + tail| && 0 <= j < |([w] + tail)[i]| ==> ok(([w] + tail)[i][j])
  {
    var ws := [w] + tail;
    forall i, j | 0 <= i < |ws| && 0 <= j < |ws[i]| ensures ok(ws[i][j]) {
      if i == 0 {
        assert ws[i] == w;
      } else {
        assert ws[i] == tail[i - 1];
      }
    }
  }

  /** Joining with spaces adds no character other than the space. */
  lemma {:induction false} JoinSpaceKeepsChars(ws: seq<string>, ok: char -> bool)
    requires forall i, j :: 0 <= i < |ws| && 0 <= j < |ws[i]| ==> ok(ws[i][j])
    ensures forall k :: 0 <= k < |JoinSpace(ws)| ==> ok(JoinSpace(ws)[k]) || JoinSpace(ws)[k] == ' '
  {
    if |ws| > 1 {
      JoinSpaceKeepsChars(ws[1..], ok);
      var w, rest := ws[0], JoinSpace(ws[1..]);
      forall k | 0 <= k < |JoinSpace(ws)|
        ensures ok(JoinSpace(ws)[k]) || JoinSpace(ws)[k] == ' '
      {
        if k < |w| {
          assert JoinSpace(ws)[k] == ws[0][k];
        } else if k > |w| {
          assert JoinSpace(ws)[k] == rest[k - |w| - 1];
        }
      }
    }
  }

  // ---------------------------------------------------------------------
  // str.find and str.replace

  /** `p` occurs in `s` starting at index `j`. */
  predicate OccursAt(s: string, p: string, j: int) {
    0 <= j && j + |p| <= |s| && s[j..j + |p|] == p
  }

  lemma OccursAtTail(s: string, p: string, j: int)
    requires s != [] && 1 <= j
    ensures OccursAt(s, p, j) <==> OccursAt(s[1..], p, j - 1)
  {
    if j + |p| <= |s| {
      var a, b := s[j..j + |p|], s[1..][j - 1..j - 1 + |p|];
      assert forall k :: 0 <= k < |p| ==> a[k] == b[k];
      assert a == b;
    }
  }

  /** `s.find(p)`: the first index at which `p` occurs in `s`, or -1. */
  function Find(s: string, p: string): (i: int)
    ensures i >= 0 ==> OccursAt(s, p, i)
    ensures i >= 0 ==> forall j :: 0 <= j < i ==> !OccursAt(s, p, j)
    ensures i < 0 ==> i == -1 && forall j :: !OccursAt(s, p, j)
    decreases |s|
  {
    if StartsWith(s, p) then 0
    else if s == [] then -1
    else
      var k := Find(s[1..], p);
      assert forall j :: 1 <= j ==> (OccursAt(s, p, j) <==> OccursAt(s[1..], p, j - 1)) by {
        forall j | 1 <= j ensures OccursAt(s, p, j) <==> OccursAt(s[1..], p, j - 1) {
          OccursAtTail(s, p, j);
        }
      }
      if k < 0 then -1 else k + 1
  }

  /** `s.replace(pat, repl, 1)`: when `pat` occurs, its first occurrence is
      replaced by `repl` and everything around it is kept; otherwise `s` comes
      back unchanged. */
  function ReplaceFirst(s: string, pat: string, repl: string): (r: string)
    ensures (forall j :: !OccursAt(s, pat, j)) ==> r == s
    ensures forall i :: OccursAt(s, pat, i) && (forall j :: 0 <= j < i ==> !OccursAt(s, pat, j)) ==>
      r == s[..i] + repl + s[i + |pat|..]
  {
    var i := Find(s, pat);
    if i < 0 then s else s[..i] + repl + s[i + |pat|..]
  }
}
