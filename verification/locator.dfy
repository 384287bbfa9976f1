/** The embedded-object locator (src/parsers/parsers.py,
    `_extract_js_competitors`): a search of the page text with the regular
    expression `var\s+jsCompetitors\s*=\s*(\{.*?\});` and, when that finds
    nothing, with `jsCompetitors\s*=\s*(\{.*?\});`, both with `.` matching
    newlines. The capture is non-greedy: it runs from the `{` to the first
    `}` that a `;` follows, whatever the nesting of braces in between. */
module Locator {
  import opened Wrappers
  import opened Text

  const Name := "jsCompetitors"

  /** `w` occurs in `s` at `i`. */
  predicate HasAt(s: string, i: nat, w: string) {
    i + |w| <= |s| && s[i..i + |w|] == w
  }

  /** The end of the run of whitespace starting at `i`. A greedy `\s*` or
      `\s+` followed by a non-space literal can only match this whole run. */
  function SkipSpaces(s: string, i: nat): (j: nat)
    requires i <= |s|
    ensures i <= j <= |s|
    ensures forall k :: i <= k < j ==> IsSpace(s[k])
    ensures j < |s| ==> !IsSpace(s[j])
    decreases |s| - i
  {
    if i < |s| && IsSpace(s[i]) then SkipSpaces(s, i + 1) else i
  }

  /** `\s*=\s*\{` matched from `i`: where its `{` is. */
  function AssignFrom(s: string, i: nat): (b: Option<nat>)
    requires i <= |s|
    ensures b.Some? ==> i < b.value < |s| && s[b.value] == '{'
  {
    var j := SkipSpaces(s, i);
    if j < |s| && s[j] == '=' then
      var k := SkipSpaces(s, j + 1);
      if k < |s| && s[k] == '{' then Some(k) else None
    else None
  }

  /** The part of the pattern before the capture, matched at `p`: where the
      captured `{` is. `withVar` selects the `var\s+` form. */
  function OpenBrace(s: string, p: nat, withVar: bool): (b: Option<nat>)
    requires p <= |s|
    ensures b.Some? ==> p < b.value < |s| && s[b.value] == '{'
  {
    if withVar then
      if HasAt(s, p, "var") then
        var j := SkipSpaces(s, p + 3);
        if j > p + 3 && HasAt(s, j, Name) then AssignFrom(s, j + |Name|) else None
      else None
    else if HasAt(s, p, Name) then AssignFrom(s, p + |Name|)
    else None
  }

  /** `s[i..j]` is a run of whitespace. */
  predicate Spaces(s: string, i: int, j: int) {
    0 <= i <= j <= |s| && forall k :: i <= k < j ==> IsSpace(s[k])
  }

  /** `\s*=\s*\{` spans `s[i..b + 1]`. */
  ghost predicate AssignShape(s: string, i: nat, b: nat) {
    b < |s| && s[b] == '{' &&
    exists j :: i <= j < b && Spaces(s, i, j) && s[j] == '=' && Spaces(s, j + 1, b)
  }

  /** The head of the pattern, `var\s+jsCompetitors\s*=\s*\{` or
      `jsCompetitors\s*=\s*\{`, spans `s[p..b + 1]`. */
  ghost predicate HeadShape(s: string, p: nat, withVar: bool, b: nat) {
    if withVar then
      HasAt(s, p, "var") &&
      exists i: nat :: p + 3 < i && Spaces(s, p + 3, i) && HasAt(s, i, Name) && AssignShape(s, i + |Name|, b)
    else HasAt(s, p, Name) && AssignShape(s, p + |Name|, b)
  }

  /** A whitespace run that ends before a non-space character is the whole
      run `SkipSpaces` finds. */
  lemma SkipSpacesTo(s: string, i: nat, j: nat)
    requires Spaces(s, i, j) && j < |s| && !IsSpace(s[j])
    ensures SkipSpaces(s, i) == j
  {
  }

  lemma AssignFromShape(s: string, i: nat, b: nat)
    requires i <= |s|
    ensures AssignFrom(s, i) == Some(b) <==> AssignShape(s, i, b)
  {
    if AssignFrom(s, i) == Some(b) {
      var j := SkipSpaces(s, i);
      assert Spaces(s, i, j) && s[j] == '=' && Spaces(s, j + 1, b);
    }
    if AssignShape(s, i, b) {
      var j :| i <= j < b && Spaces(s, i, j) && s[j] == '=' && Spaces(s, j + 1, b);
      SkipSpacesTo(s, i, j);
      SkipSpacesTo(s, j + 1, b);
    }
  }

  /** The head matches at `p` and stops on the `{` at `b` exactly when the
      text from `p` to `b` has the shape of the pattern's head. */
  lemma OpenBraceShape(s: string, p: nat, withVar: bool, b: nat)
    requires p <= |s|
    ensures OpenBrace(s, p, withVar) == Some(b) <==> HeadShape(s, p, withVar, b)
  {
    if withVar {
      if HasAt(s, p, "var") {
        VarHeadShape(s, p, b);
      }
    } else if HasAt(s, p, Name) {
      AssignFromShape(s, p + |Name|, b);
    }
  }

  lemma VarHeadShape(s: string, p: nat, b: nat)
    requires HasAt(s, p, "var")
    ensures OpenBrace(s, p, true) == Some(b) <==> HeadShape(s, p, true, b)
  {
    var j := SkipSpaces(s, p + 3);
    if j > p + 3 && HasAt(s, j, Name) {
      AssignFromShape(s, j + |Name|, b);
    }
    if HeadShape(s, p, true, b) {
      VarHeadFromShape(s, p, b);
    }
  }

  lemma VarHeadFromShape(s: string, p: nat, b: nat)
    requires HasAt(s, p, "var") && HeadShape(s, p, true, b)
    ensures OpenBrace(s, p, true) == Some(b)
  {
    var i: nat :| p + 3 < i && Spaces(s, p + 3, i) && HasAt(s, i, Name) && AssignShape(s, i + |Name|, b);
    assert s[i] == Name[0];
    SkipSpacesTo(s, p + 3, i);
    AssignFromShape(s, i + |Name|, b);
  }

  /** A `}` that a `;` follows. */
  predicate IsClose(s: string, q: int) {
    0 <= q && q + 1 < |s| && s[q] == '}' && s[q + 1] == ';'
  }

  /** The first close at or after `i`. */
  function CloseFrom(s: string, i: nat): (q: Option<nat>)
    requires i <= |s|
    ensures q.Some? ==> i <= q.value && IsClose(s, q.value)
    ensures forall k :: i <= k && (q.None? || k < q.value) ==> !IsClose(s, k)
    decreases |s| - i
  {
    if i + 1 >= |s| then None
    else if IsClose(s, i) then Some(i)
    else CloseFrom(s, i + 1)
  }

  /** `r` is the text from the `{` at `b` through the close at `q`, with
      no close in between. */
  predicate Capture(s: string, b: nat, q: nat, r: string)
    requires b < q < |s|
  {
    && r == s[b..q + 1] && Braced(r)
    && forall k :: b < k < q ==> !IsClose(s, k)
  }

  /** The whole pattern matched at `p`: the captured text, from the `{`
      through the first close after it. */
  function MatchAt(s: string, p: nat, withVar: bool): (r: Option<string>)
    requires p <= |s|
    ensures r.Some? <==> OpenBrace(s, p, withVar).Some? && CloseFrom(s, OpenBrace(s, p, withVar).value + 1).Some?
    ensures r.Some? ==> Capture(s, OpenBrace(s, p, withVar).value, CloseFrom(s, OpenBrace(s, p, withVar).value + 1).value, r.value)
  {
    var ob := OpenBrace(s, p, withVar);
    if ob.None? then None
    else
      var cl := CloseFrom(s, ob.value + 1);
      if cl.None? then None
      else
        var r := s[ob.value..cl.value + 1];
        assert Capture(s, ob.value, cl.value, r) by {
          assert r[0] == s[ob.value] && r[|r| - 1] == s[cl.value];
        }
        Some(r)
  }

  /** A `{ ... }` literal. */
  predicate Braced(r: string) {
    |r| >= 2 && r[0] == '{' && r[|r| - 1] == '}'
  }

  /** The pattern matches nowhere in `[from, p)`. */
  predicate NoneBetween(s: string, from: nat, p: nat, withVar: bool)
    requires p <= |s| + 1
  {
    forall k :: from <= k < p ==> MatchAt(s, k, withVar).None?
  }

  /** `re.search`: the match at the leftmost position from `from` on. */
  function Search(s: string, from: nat, withVar: bool): (r: Option<string>)
    requires from <= |s|
    ensures r.Some? ==> Braced(r.value)
    ensures r.None? ==> NoneBetween(s, from, |s| + 1, withVar)
    decreases |s| - from
  {
    if from == |s| then
      assert OpenBrace(s, from, withVar).None?;
      None
    else
      var m := MatchAt(s, from, withVar);
      if m.Some? then m
      else
        var r := Search(s, from + 1, withVar);
        if r.None? then NoneExtend(s, from, |s| + 1, withVar); r else r
  }

  lemma NoneExtend(s: string, from: nat, p: nat, withVar: bool)
    requires from < p <= |s| + 1 && from <= |s|
    requires MatchAt(s, from, withVar).None? && NoneBetween(s, from + 1, p, withVar)
    ensures NoneBetween(s, from, p, withVar)
  {
  }

  /** `_extract_js_competitors`: a result is a brace-delimited literal,
      and there is none only when no assignment matches at all. */
  function ExtractJsCompetitors(html: string): (r: Option<string>)
    ensures r.Some? ==> Braced(r.value)
    ensures r.None? ==> NoMatch(html)
  {
    var m := Search(html, 0, true);
    if m.Some? then m else Search(html, 0, false)
  }

  /** Neither pattern matches anywhere in `html`. */
  predicate NoMatch(html: string) {
    forall p :: 0 <= p <= |html| ==> MatchAt(html, p, true).None? && MatchAt(html, p, false).None?
  }

  lemma ExtractNone(html: string)
    ensures ExtractJsCompetitors(html).None? ==> NoMatch(html)
  {
  }

  lemma ExtractSome(html: string)
    requires ExtractJsCompetitors(html).Some?
    ensures !NoMatch(html)
    ensures Braced(ExtractJsCompetitors(html).value)
  {
    if Search(html, 0, true).Some? {
      var p := SearchWitness(html, 0, true);
      assert MatchAt(html, p, true).Some?;
    } else {
      var p := SearchWitness(html, 0, false);
      assert MatchAt(html, p, false).Some?;
    }
  }

  /** A successful search returns the match at the leftmost position where
      the pattern matches. */
  lemma {:induction false} SearchWitness(s: string, from: nat, withVar: bool) returns (p: nat)
    requires from <= |s| && Search(s, from, withVar).Some?
    ensures from <= p < |s| && MatchAt(s, p, withVar) == Search(s, from, withVar)
    ensures NoneBetween(s, from, p, withVar)
    decreases |s| - from
  {
    assert Search(s, |s|, withVar).None?;
    if MatchAt(s, from, withVar).Some? {
      p := from;
    } else {
      assert Search(s, from, withVar) == Search(s, from + 1, withVar);
      p := SearchWitness(s, from + 1, withVar);
      NoneExtend(s, from, p, withVar);
    }
  }

  /** The locator finds nothing exactly when neither pattern matches
      anywhere; what it finds is a `{ ... }` literal, the capture of the
      leftmost `var` match when there is one, and otherwise the capture of
      the leftmost bare match. */
  lemma ExtractJsCompetitorsSpec(html: string)
    ensures ExtractJsCompetitors(html).None? <==> NoMatch(html)
    ensures ExtractJsCompetitors(html).Some? ==> Braced(ExtractJsCompetitors(html).value)
    ensures Search(html, 0, true).Some? ==> ExtractJsCompetitors(html) == Search(html, 0, true)
    ensures Search(html, 0, true).None? ==> ExtractJsCompetitors(html) == Search(html, 0, false)
  {
    ExtractNone(html);
    if ExtractJsCompetitors(html).Some? {
      ExtractSome(html);
    }
  }

  /** Without a `var` match anywhere, a found object is the capture at the
      leftmost position where the bare pattern matches. */
  lemma ExtractFallback(html: string) returns (p: nat)
    requires NoneBetween(html, 0, |html| + 1, true) && ExtractJsCompetitors(html).Some?
    ensures p < |html| && MatchAt(html, p, false) == ExtractJsCompetitors(html)
    ensures NoneBetween(html, 0, p, false)
  {
    if Search(html, 0, true).Some? {
      var q := SearchWitness(html, 0, true);
      assert false;
    }
    p := SearchWitness(html, 0, false);
  }

  /** The head of a `var jsCompetitors = ` assignment matches the pattern
      up to the `{` that follows it. */
  lemma DeclaredHead(s: string)
    requires |s| > 20 && s[..20] == "var " + Name + " = " && s[20] == '{'
    ensures OpenBrace(s, 0, true) == Some(20)
  {
    var head := "var " + Name + " = ";
    assert HasAt(s, 0, "var") by {
      assert s[0..3] == head[0..3];
    }
    assert s[3] == ' ' && !IsSpace(s[4]);
    assert SkipSpaces(s, 4) == 4;
    assert SkipSpaces(s, 3) == 4;
    assert HasAt(s, 4, Name) by {
      assert s[4..17] == head[4..17];
    }
    assert s[17] == ' ' && s[18] == '=' && s[19] == ' ';
    assert SkipSpaces(s, 18) == 18;
    assert SkipSpaces(s, 17) == 18;
    assert SkipSpaces(s, 20) == 20;
    assert SkipSpaces(s, 19) == 20;
  }

  /** The capture runs from the `{` at `b` to the first close after it. */
  lemma CaptureEnds(s: string, b: nat, q: nat)
    requires b < q && IsClose(s, q)
    requires forall k :: b < k < q ==> !IsClose(s, k)
    ensures CloseFrom(s, b + 1) == Some(q)
    decreases q - b
  {
    if b + 1 < q {
      CaptureEnds(s, b + 1, q);
    }
  }

  /** A page that assigns the object literal `obj` with `var` first. */
  function Declared(obj: string, rest: string): string {
    "var " + Name + " = " + obj + ";" + rest
  }

  /** A page that assigns the object literal `obj` with `var` first finds
      exactly `obj` when no `}` inside it is followed by `;`, however deeply
      its braces nest; the search stops at the first such `}` otherwise. */
  lemma ExtractDeclared(obj: string, rest: string)
    requires |obj| >= 2 && obj[0] == '{' && obj[|obj| - 1] == '}'
    requires forall k :: 0 <= k < |obj| - 1 ==> !(obj[k] == '}' && obj[k + 1] == ';')
    ensures ExtractJsCompetitors(Declared(obj, rest)) == Some(obj)
  {
    var s := Declared(obj, rest);
    var q := 20 + |obj| - 1;
    DeclaredOpen(obj, rest);
    DeclaredClose(obj, rest);
    assert s[20..q + 1] == obj by {
      assert s == "var " + Name + " = " + obj + (";" + rest);
      MiddleSlice("var " + Name + " = ", obj, ";" + rest);
    }
    FoundAtStart(s, 20, q);
  }

  /** A page where the `var` pattern matches at its very start yields that
      match. */
  lemma FoundAtStart(s: string, b: nat, q: nat)
    requires OpenBrace(s, 0, true) == Some(b) && CloseFrom(s, b + 1) == Some(q)
    ensures ExtractJsCompetitors(s) == Some(s[b..q + 1])
  {
    assert MatchAt(s, 0, true) == Some(s[b..q + 1]);
    SearchHere(s, 0, true);
  }

  lemma DeclaredOpen(obj: string, rest: string)
    requires |obj| >= 2 && obj[0] == '{'
    ensures OpenBrace(Declared(obj, rest), 0, true) == Some(20)
  {
    var s := Declared(obj, rest);
    assert s[..20] == "var " + Name + " = " && s[20] == obj[0];
    DeclaredHead(s);
  }

  lemma DeclaredClose(obj: string, rest: string)
    requires |obj| >= 2 && obj[|obj| - 1] == '}'
    requires forall k :: 0 <= k < |obj| - 1 ==> !(obj[k] == '}' && obj[k + 1] == ';')
    ensures CloseFrom(Declared(obj, rest), 21) == Some(19 + |obj|)
  {
    var s := Declared(obj, rest);
    var q := 19 + |obj|;
    assert s[q] == obj[|obj| - 1] && s[q + 1] == ';';
    forall k | 20 < k < q ensures !IsClose(s, k) {
      assert s[k] == obj[k - 20] && s[k + 1] == obj[k - 19];
    }
    CaptureEnds(s, 20, q);
  }

  lemma MiddleSlice(a: string, m: string, b: string)
    ensures (a + m + b)[|a|..|a| + |m|] == m
  {
  }

  /** A search from a position where the pattern matches returns that match. */
  lemma SearchHere(s: string, from: nat, withVar: bool)
    requires from < |s| && MatchAt(s, from, withVar).Some?
    ensures Search(s, from, withVar) == MatchAt(s, from, withVar)
  {
  }
}
