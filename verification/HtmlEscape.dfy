/** The five replacements of `escapeHtml` (scripts/reports/report-db-schema-visualizer.ts). */
module HtmlEscape {

  /** One replacement: every occurrence of a character becomes a text. */
  datatype Pass = Pass(target: char, text: string)

  function ReplaceAll(s: string, p: Pass): string {
    if s == "" then "" else (if s[0] == p.target then p.text else [s[0]]) + ReplaceAll(s[1..], p)
  }

  /** The passes run one after the other, each on the previous output. */
  function RunPasses(s: string, passes: seq<Pass>): string
    decreases |passes|
  {
    if passes == [] then s else RunPasses(ReplaceAll(s, passes[0]), passes[1..])
  }

  /** The passes as one table: each character of the input is replaced at most once. */
  function Replacement(c: char, passes: seq<Pass>): string {
    if passes == [] then [c] else if c == passes[0].target then passes[0].text else Replacement(c, passes[1..])
  }

  function ReplaceEach(s: string, passes: seq<Pass>): string {
    if s == "" then "" else Replacement(s[0], passes) + ReplaceEach(s[1..], passes)
  }

  // ----- Sequential passes and one simultaneous pass -----

  ghost predicate DistinctTargets(passes: seq<Pass>) {
    forall i, j :: 0 <= i < j < |passes| ==> passes[i].target != passes[j].target
  }

  /** No pass writes a character that a later pass replaces. */
  ghost predicate InOrder(passes: seq<Pass>) {
    forall i, j :: 0 <= i < j < |passes| ==> passes[j].target !in passes[i].text
  }

  ghost predicate Lengthens(passes: seq<Pass>) {
    forall i :: 0 <= i < |passes| ==> |passes[i].text| >= 2
  }

  lemma {:induction false} ReplaceConcat(a: string, b: string, p: Pass)
    ensures ReplaceAll(a + b, p) == ReplaceAll(a, p) + ReplaceAll(b, p)
    decreases |a|
  {
    if a == "" {
      assert a + b == b;
    } else {
      ReplaceConcat(a[1..], b, p);
      assert (a + b)[1..] == a[1..] + b;
    }
  }

  lemma {:induction false} RunConcat(a: string, b: string, passes: seq<Pass>)
    ensures RunPasses(a + b, passes) == RunPasses(a, passes) + RunPasses(b, passes)
    decreases |passes|
  {
    if passes != [] {
      ReplaceConcat(a, b, passes[0]);
      RunConcat(ReplaceAll(a, passes[0]), ReplaceAll(b, passes[0]), passes[1..]);
    }
  }

  lemma {:induction false} RunEmpty(passes: seq<Pass>)
    ensures RunPasses("", passes) == ""
  {
    if passes != [] { RunEmpty(passes[1..]); }
  }

  lemma {:induction false} UntouchedByPass(s: string, p: Pass)
    requires p.target !in s
    ensures ReplaceAll(s, p) == s
  {
    if s != "" { UntouchedByPass(s[1..], p); }
  }

  lemma {:induction false} UntouchedByRun(s: string, passes: seq<Pass>)
    requires forall i :: 0 <= i < |passes| ==> passes[i].target !in s
    ensures RunPasses(s, passes) == s
    decreases |passes|
  {
    if passes != [] {
      UntouchedByPass(s, passes[0]);
      UntouchedByRun(s, passes[1..]);
    }
  }

  lemma {:induction false} RunOneChar(c: char, passes: seq<Pass>)
    requires InOrder(passes)
    ensures RunPasses([c], passes) == Replacement(c, passes)
    decreases |passes|
  {
    if passes != [] {
      assert ReplaceAll([c], passes[0]) == if c == passes[0].target then passes[0].text else [c];
      if c == passes[0].target {
        UntouchedByRun(passes[0].text, passes[1..]);
      } else {
        RunOneChar(c, passes[1..]);
      }
    }
  }

  lemma {:induction false} InOrderIsSimultaneous(s: string, passes: seq<Pass>)
    requires InOrder(passes)
    ensures RunPasses(s, passes) == ReplaceEach(s, passes)
    decreases |s|
  {
    if s == "" {
      RunEmpty(passes);
    } else {
      RunOneChar(s[0], passes);
      InOrderIsSimultaneous(s[1..], passes);
      RunConcat([s[0]], s[1..], passes);
      assert s == [s[0]] + s[1..];
    }
  }

  // Out of order, some character grows beyond its replacement.

  lemma {:induction false} PassGrows(s: string, p: Pass)
    requires |p.text| >= 2
    ensures |ReplaceAll(s, p)| >= |s| && (p.target in s ==> |ReplaceAll(s, p)| > |s|)
  {
    if s != "" { PassGrows(s[1..], p); }
  }

  lemma {:induction false} CharSurvives(s: string, p: Pass, c: char)
    requires c in s && c != p.target
    ensures c in ReplaceAll(s, p)
  {
    if s[0] != c {
      CharSurvives(s[1..], p, c);
    }
  }

  lemma {:induction false} RunGrows(s: string, passes: seq<Pass>)
    requires Lengthens(passes)
    ensures |RunPasses(s, passes)| >= |s|
    decreases |passes|
  {
    if passes != [] {
      PassGrows(s, passes[0]);
      RunGrows(ReplaceAll(s, passes[0]), passes[1..]);
    }
  }

  lemma {:induction false} RunGrowsStrictly(s: string, passes: seq<Pass>, j: nat)
    requires Lengthens(passes) && DistinctTargets(passes) && j < |passes| && passes[j].target in s
    ensures |RunPasses(s, passes)| > |s|
    decreases |passes|
  {
    PassGrows(s, passes[0]);
    var next := ReplaceAll(s, passes[0]);
    if j == 0 {
      RunGrows(next, passes[1..]);
    } else {
      CharSurvives(s, passes[0], passes[j].target);
      RunGrowsStrictly(next, passes[1..], j - 1);
    }
  }

  /** Pass `i` writes a character that pass `j` replaces again. */
  lemma {:induction false} OutOfOrderDiffers(passes: seq<Pass>, i: nat, j: nat)
    requires Lengthens(passes) && DistinctTargets(passes)
    requires i < j < |passes| && passes[j].target in passes[i].text
    ensures RunPasses([passes[i].target], passes) != ReplaceEach([passes[i].target], passes)
    decreases i
  {
    var c := passes[i].target;
    assert ReplaceEach([c], passes) == Replacement(c, passes);
    if i == 0 {
      assert ReplaceAll([c], passes[0]) == passes[0].text;
      RunGrowsStrictly(passes[0].text, passes[1..], j - 1);
    } else {
      assert ReplaceAll([c], passes[0]) == [c];
      OutOfOrderDiffers(passes[1..], i - 1, j - 1);
    }
  }

  /** For passes with different targets and replacements of two characters or more, running them in sequence is
      one simultaneous replacement on every text exactly when no pass rewrites what an earlier one wrote. */
  lemma SequentialIsSimultaneousIff(passes: seq<Pass>)
    requires Lengthens(passes) && DistinctTargets(passes)
    ensures InOrder(passes) <==> forall s :: RunPasses(s, passes) == ReplaceEach(s, passes)
  {
    if InOrder(passes) {
      forall s ensures RunPasses(s, passes) == ReplaceEach(s, passes) {
        InOrderIsSimultaneous(s, passes);
      }
    } else {
      var i, j :| 0 <= i < j < |passes| && passes[j].target in passes[i].text;
      OutOfOrderDiffers(passes, i, j);
    }
  }

  // ----- The five passes of escapeHtml -----

  const HTML := [Pass('&', "&amp;"), Pass('<', "&lt;"), Pass('>', "&gt;"), Pass('"', "&quot;"), Pass('\'', "&#39;")]

  function EscapeHtml(s: string): string {
    RunPasses(s, HTML)
  }

  /** What the five passes write for one character. */
  function Reference(c: char): string {
    if c == '&' then "&amp;"
    else if c == '<' then "&lt;"
    else if c == '>' then "&gt;"
    else if c == '"' then "&quot;"
    else if c == '\'' then "&#39;"
    else [c]
  }

  predicate IsMarkup(c: char) {
    c == '<' || c == '>' || c == '"' || c == '\''
  }

  lemma HtmlPass(p: Pass)
    requires p in HTML
    ensures (p.target == '&' || IsMarkup(p.target)) && p.text == Reference(p.target)
  {
  }

  lemma ReferenceText(c: char)
    requires c == '&' || IsMarkup(c)
    ensures |Reference(c)| >= 4 && Reference(c)[0] == '&'
    ensures forall i :: 0 < i < |Reference(c)| ==> Reference(c)[i] != '&'
    ensures forall x :: x in Reference(c) ==> !IsMarkup(x)
  {
  }

  lemma HtmlTable(passes: seq<Pass>)
    requires forall p :: p in passes ==> p in HTML
    ensures Lengthens(passes)
    ensures forall i, j :: 0 <= i < |passes| && 0 <= j < |passes| ==>
              (passes[j].target in passes[i].text <==> passes[j].target == '&')
  {
    forall i | 0 <= i < |passes| ensures |passes[i].text| >= 2 {
      HtmlPass(passes[i]);
      ReferenceText(passes[i].target);
    }
    forall i, j | 0 <= i < |passes| && 0 <= j < |passes|
      ensures passes[j].target in passes[i].text <==> passes[j].target == '&'
    {
      HtmlPass(passes[i]);
      HtmlPass(passes[j]);
      ReferenceText(passes[i].target);
      assert passes[i].text[0] == '&';
    }
  }

  lemma HtmlInOrder()
    ensures InOrder(HTML) && DistinctTargets(HTML)
  {
    HtmlTable(HTML);
  }

  lemma ReplacementIsReference(c: char)
    ensures Replacement(c, HTML) == Reference(c)
  {
    HtmlInOrder();
    ReplacementIs(c, HTML);
    assert HTML[0].target == '&' && HTML[1].target == '<' && HTML[2].target == '>' && HTML[3].target == '"'
        && HTML[4].target == '\'';
    forall p | p in HTML ensures p.target == c ==> p.text == Reference(c) { HtmlPass(p); }
    if c != '&' && !IsMarkup(c) {
      forall p | p in HTML ensures p.target != c { HtmlPass(p); }
    }
  }

  /** The five passes are one table look-up per character. */
  lemma EscapeIsPerCharacter(s: string)
    ensures EscapeHtml(s) == ReplaceEach(s, HTML)
  {
    HtmlInOrder();
    InOrderIsSimultaneous(s, HTML);
  }

  /** What is written for each character. */
  lemma EscapeMeans(c: char, s: string)
    ensures EscapeHtml("") == ""
    ensures EscapeHtml([c] + s) == (match c
        case '&' => "&amp;" case '<' => "&lt;" case '>' => "&gt;" case '"' => "&quot;" case '\'' => "&#39;" case _ => [c]) + EscapeHtml(s)
  {
    EscapeIsPerCharacter("");
    EscapeIsPerCharacter([c] + s);
    EscapeIsPerCharacter(s);
    ReplacementIsReference(c);
    assert ([c] + s)[1..] == s;
  }

  lemma {:induction false} ReplacementIs(c: char, passes: seq<Pass>)
    requires DistinctTargets(passes)
    ensures forall p :: p in passes && p.target == c ==> Replacement(c, passes) == p.text
    ensures (forall p :: p in passes ==> p.target != c) ==> Replacement(c, passes) == [c]
    decreases |passes|
  {
    if passes != [] {
      ReplacementIs(c, passes[1..]);
      assert forall p :: p in passes ==> p == passes[0] || p in passes[1..];
      assert forall p :: p in passes[1..] ==> p.target != passes[0].target;
    }
  }

  lemma {:induction false} SameTable(s: string, a: seq<Pass>, b: seq<Pass>)
    requires DistinctTargets(a) && DistinctTargets(b) && forall p :: p in a <==> p in b
    ensures ReplaceEach(s, a) == ReplaceEach(s, b)
    decreases |s|
  {
    if s != "" {
      ReplacementIs(s[0], a);
      ReplacementIs(s[0], b);
      SameTable(s[1..], a, b);
    }
  }

  /** The five replacements in another order are the same table look-up exactly when the ampersand goes first. */
  lemma AmpersandFirst(passes: seq<Pass>)
    requires DistinctTargets(passes) && forall p :: p in passes <==> p in HTML
    ensures passes != []
    ensures (forall s :: RunPasses(s, passes) == ReplaceEach(s, HTML)) <==> passes[0].target == '&'
  {
    assert HTML[0] in passes;
    HtmlTable(passes);
    HtmlInOrder();
    SequentialIsSimultaneousIff(passes);
    forall s ensures ReplaceEach(s, passes) == ReplaceEach(s, HTML) { SameTable(s, passes, HTML); }
    var k :| 0 <= k < |passes| && passes[k] == HTML[0];
    InOrderIffFirst(passes, '&', k);
  }

  /** When every text holds one of the targets and no other, that target's pass has to be the first. */
  lemma InOrderIffFirst(passes: seq<Pass>, c: char, k: nat)
    requires DistinctTargets(passes) && k < |passes| && passes[k].target == c
    requires forall i, j :: 0 <= i < |passes| && 0 <= j < |passes| ==>
               (passes[j].target in passes[i].text <==> passes[j].target == c)
    ensures InOrder(passes) <==> passes[0].target == c
  {
    assert k > 0 ==> passes[0].target != c && passes[k].target in passes[0].text;
  }

  // ----- Reading escaped text back -----

  /** Character references of the five kinds become characters again (section 13.1.4 of the HTML Standard). */
  function Unescape(s: string): string {
    if s == "" then ""
    else if "&amp;" <= s then "&" + Unescape(s[5..])
    else if "&lt;" <= s then "<" + Unescape(s[4..])
    else if "&gt;" <= s then ">" + Unescape(s[4..])
    else if "&quot;" <= s then "\"" + Unescape(s[6..])
    else if "&#39;" <= s then "'" + Unescape(s[5..])
    else [s[0]] + Unescape(s[1..])
  }

  predicate StartsReference(s: string) {
    "&amp;" <= s || "&lt;" <= s || "&gt;" <= s || "&quot;" <= s || "&#39;" <= s
  }

  lemma ReferenceRead(c: char, rest: string)
    ensures Unescape(Reference(c) + rest) == [c] + Unescape(rest)
    ensures c == '&' || IsMarkup(c) ==> StartsReference(Reference(c) + rest)
  {
    var text := Reference(c);
    var s := text + rest;
    assert s[|text|..] == rest && s[0] == text[0];
    if c == '&' || IsMarkup(c) { assert s[1] == text[1] && s[..|text|] == text; }
  }

  /** Escaping loses nothing. */
  lemma {:induction false} UnescapeRecovers(s: string)
    ensures Unescape(EscapeHtml(s)) == s
  {
    EscapeIsPerCharacter(s);
    if s != "" {
      UnescapeRecovers(s[1..]);
      EscapeIsPerCharacter(s[1..]);
      ReplacementIsReference(s[0]);
      ReferenceRead(s[0], ReplaceEach(s[1..], HTML));
    }
  }

  /** No markup character is left, and every ampersand starts one of the five references. */
  ghost predicate IsSafeText(s: string) {
    && (forall i :: 0 <= i < |s| ==> !IsMarkup(s[i]))
    && forall i :: 0 <= i < |s| && s[i] == '&' ==> StartsReference(s[i..])
  }

  lemma {:induction false} EscapedIsSafe(s: string)
    ensures IsSafeText(EscapeHtml(s))
    ensures forall c :: c in EscapeHtml(s) ==> c !in "<>\"'"
  {
    EscapeIsPerCharacter(s);
    if s != "" {
      EscapedIsSafe(s[1..]);
      EscapeIsPerCharacter(s[1..]);
      ReplacementIsReference(s[0]);
      SafePrefix(s[0], ReplaceEach(s[1..], HTML));
    }
  }

  lemma SafePrefix(c: char, rest: string)
    requires IsSafeText(rest)
    ensures IsSafeText(Reference(c) + rest)
  {
    var text := Reference(c);
    var s := text + rest;
    var special := c == '&' || IsMarkup(c);
    if special { ReferenceText(c); }
    forall i | 0 <= i < |s| ensures !IsMarkup(s[i]) && (s[i] == '&' ==> StartsReference(s[i..])) {
      if i >= |text| {
        assert s[i] == rest[i - |text|] && s[i..] == rest[i - |text|..];
      } else {
        assert s[i] == text[i] && s[0..] == s;
        if special { ReferenceRead(c, rest); }
      }
    }
  }
}
