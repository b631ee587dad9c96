/** The text helpers of wiki-shared.js: `slugId`, `escapeHtml`, `moneyCell`,
    `safeText` and `imgUrl`. */
module WikiText {
  import opened Text
  import opened JsValues
  import opened Seqs

  /** The em dash the pages show for a missing value. */
  const Dash: string := "—"

  const OfficialFilePath: string := "https://deadpoly.wiki/Special:FilePath/"

  // ---------- slugId ----------

  /** The class `[a-z0-9]` of the slug pattern. */
  predicate IsSlugChar(c: char) {
    ('a' <= c <= 'z') || ('0' <= c <= '9')
  }

  /** Letters, digits and dashes, never two dashes in a row. */
  ghost predicate DashSeparated(t: string) {
    && (forall i :: 0 <= i < |t| ==> IsSlugChar(t[i]) || t[i] == '-')
    && (forall i, j :: 0 <= i < j < |t| && j == i + 1 ==> !(t[i] == '-' && t[j] == '-'))
  }

  /** What a slug looks like: lower-case letters, digits and single dashes
      between them, never a dash at either end. */
  ghost predicate IsSlug(t: string) {
    DashSeparated(t) && (t == [] || (t[0] != '-' && t[|t| - 1] != '-'))
  }

  /** `.replace(/[^a-z0-9]+/g, "-")`: every maximal run of other characters
      becomes one dash. `inRun` says that the previous character was one of them. */
  function CollapseRuns(s: string, inRun: bool): (r: string)
    ensures DashSeparated(r)
    ensures inRun ==> r == [] || r[0] != '-'
  {
    if s == [] then []
    else if IsSlugChar(s[0]) then [s[0]] + CollapseRuns(s[1..], false)
    else if inRun then CollapseRuns(s[1..], true)
    else "-" + CollapseRuns(s[1..], true)
  }

  /** `.replace(/(^-|-$)/g, "")`: one leading and one trailing dash removed. */
  function StripDashEnds(t: string): string {
    var u := if t != [] && t[0] == '-' then t[1..] else t;
    if u != [] && u[|u| - 1] == '-' then u[..|u| - 1] else u
  }

  /** Removing the end dashes of collapsed text leaves a slug. */
  lemma StripDashEndsMakesSlug(t: string)
    requires DashSeparated(t)
    ensures IsSlug(StripDashEnds(t))
  {
    var i := if t != [] && t[0] == '-' then 1 else 0;
    var u := t[i..];
    var j := if u != [] && u[|u| - 1] == '-' then |t| - 1 else |t|;
    assert StripDashEnds(t) == t[i..j];
    DashSeparatedSlice(t, i, j);
    var r := t[i..j];
    if r != [] {
      assert r[0] == t[i] && r[|r| - 1] == t[j - 1];
      assert i == 1 ==> t[1] != '-';
      assert j < |t| ==> t[j - 1] != '-';
    }
  }

  /** A slice of dash-separated text is dash-separated. */
  lemma DashSeparatedSlice(t: string, i: nat, j: nat)
    requires DashSeparated(t) && i <= j <= |t|
    ensures DashSeparated(t[i..j])
  {
    var r := t[i..j];
    forall a, b | 0 <= a < b < |r| && b == a + 1
      ensures !(r[a] == '-' && r[b] == '-')
    {
      assert r[a] == t[i + a] && r[b] == t[i + b];
    }
    forall a | 0 <= a < |r|
      ensures IsSlugChar(r[a]) || r[a] == '-'
    {
      assert r[a] == t[i + a];
    }
  }

  /** `slugId(s)`. */
  function SlugId(s: Value): (r: string)
    ensures IsSlug(r)
  {
    var t := CollapseRuns(Lower(ToStr(Or(s, Str("")))), false);
    StripDashEndsMakesSlug(t);
    StripDashEnds(t)
  }

  /** A slug is already lower case and contains no run to collapse. */
  lemma {:induction false} CollapseRunsOfSlugText(t: string, inRun: bool)
    requires DashSeparated(t)
    requires inRun ==> t == [] || t[0] != '-'
    ensures CollapseRuns(t, inRun) == t
  {
    if t != [] {
      CollapseRunsOfSlugText(t[1..], !IsSlugChar(t[0]));
      assert t == [t[0]] + t[1..];
    }
  }

  lemma LowerOfSlug(t: string)
    requires IsSlug(t)
    ensures Lower(t) == t
  {
    assert forall i :: 0 <= i < |t| ==> Lower(t)[i] == t[i];
  }

  /** `slugId` leaves a slug as it is. */
  lemma SlugIdOfSlug(t: string)
    requires IsSlug(t)
    ensures SlugId(Str(t)) == t
  {
    LowerOfSlug(t);
    CollapseRunsOfSlugText(t, false);
    assert ToStr(Or(Str(t), Str(""))) == t;
  }

  /** `slugId` is idempotent. */
  lemma SlugIdIdempotent(s: Value)
    ensures SlugId(Str(SlugId(s))) == SlugId(s)
  {
    SlugIdOfSlug(SlugId(s));
  }

  /** The letters and digits of the slug are those of the lower-cased input, in order. */
  lemma SlugIdKeepsAlphanumerics(s: Value)
    ensures Filter(IsSlugChar, SlugId(s)) == Filter(IsSlugChar, Lower(ToStr(Or(s, Str("")))))
  {
    var text := Lower(ToStr(Or(s, Str(""))));
    CollapseRunsKeepsAlphanumerics(text, false);
    StripDashEndsKeepsAlphanumerics(CollapseRuns(text, false));
  }

  /** The end of the run starting at `i` of characters that are (`slug`) or
      are not (`!slug`) of the slug class. */
  function RunEnd(t: string, i: nat, slug: bool): (n: nat)
    requires i <= |t|
    ensures i <= n <= |t|
    ensures i < |t| && IsSlugChar(t[i]) == slug ==> i < n
    ensures n < |t| ==> IsSlugChar(t[n]) != slug
    decreases |t| - i
  {
    if i < |t| && IsSlugChar(t[i]) == slug then RunEnd(t, i + 1, slug) else i
  }

  lemma {:induction false} RunEndSpan(t: string, i: nat, slug: bool)
    requires i <= |t|
    ensures forall j :: i <= j < RunEnd(t, i, slug) ==> IsSlugChar(t[j]) == slug
    decreases |t| - i
  {
    if i < |t| && IsSlugChar(t[i]) == slug {
      RunEndSpan(t, i + 1, slug);
    }
  }

  predicate IsWord(w: string) {
    w != [] && forall i :: 0 <= i < |w| ==> IsSlugChar(w[i])
  }

  /** The maximal non-empty runs of `[a-z0-9]` in `t`, in order: what is left
      between the runs of other characters. */
  function Words(t: string): seq<string>
    decreases |t|
  {
    var k := RunEnd(t, 0, false);
    if k == |t| then [] else [t[k..RunEnd(t, k, true)]] + Words(t[RunEnd(t, k, true)..])
  }

  /** Each word is a non-empty run of letters and digits. */
  lemma {:induction false} WordsAreWords(t: string)
    ensures forall i :: 0 <= i < |Words(t)| ==> IsWord(Words(t)[i])
    decreases |t|
  {
    var k := RunEnd(t, 0, false);
    if k < |t| {
      var m := RunEnd(t, k, true);
      RunEndSpan(t, k, true);
      WordsAreWords(t[m..]);
      assert Words(t) == [t[k..m]] + Words(t[m..]);
    }
  }

  /** Whether collapsed text (started inside a run) ends with a dash: the
      text ends with other characters after at least one word. */
  predicate EndsWithRun(t: string) {
    RunEnd(t, 0, false) < |t| && !IsSlugChar(t[|t| - 1])
  }

  /** Inside a run, further other characters add nothing. */
  lemma {:induction false} CollapseSkipsRun(t: string, i: nat)
    requires i <= |t|
    ensures CollapseRuns(t[i..], true) == CollapseRuns(t[RunEnd(t, i, false)..], true)
    decreases |t| - i
  {
    if i < |t| && !IsSlugChar(t[i]) {
      assert t[i..][1..] == t[i + 1..];
      CollapseSkipsRun(t, i + 1);
    }
  }

  /** A word is copied as it is, and what follows starts outside a run. */
  lemma {:induction false} CollapseCopiesWord(t: string, i: nat, inRun: bool)
    requires i < |t| && IsSlugChar(t[i])
    ensures CollapseRuns(t[i..], inRun) == t[i..RunEnd(t, i, true)] + CollapseRuns(t[RunEnd(t, i, true)..], false)
    decreases |t| - i
  {
    assert t[i..][1..] == t[i + 1..];
    if i + 1 < |t| && IsSlugChar(t[i + 1]) {
      CollapseCopiesWord(t, i + 1, false);
      assert t[i..RunEnd(t, i, true)] == [t[i]] + t[i + 1..RunEnd(t, i, true)];
    }
  }

  /** Started inside a run, `CollapseRuns` gives the words joined by single
      dashes, and one more dash when the text ends with other characters. */
  lemma {:induction false} CollapseRunsJoinsWords(t: string)
    ensures CollapseRuns(t, true) == Join("-", Words(t)) + (if EndsWithRun(t) then "-" else "")
    decreases |t|
  {
    var k := RunEnd(t, 0, false);
    assert t[0..] == t;
    CollapseSkipsRun(t, 0);
    if k < |t| {
      var m := RunEnd(t, k, true);
      CollapseRunsJoinsWords(t[m..]);
      CollapseAfterWord(t, k, m);
    } else {
      assert Words(t) == [];
    }
  }

  /** One step of `CollapseRunsJoinsWords`: the first word, then the rest. */
  lemma CollapseAfterWord(t: string, k: nat, m: nat)
    requires k == RunEnd(t, 0, false) && k < |t| && m == RunEnd(t, k, true)
    requires CollapseRuns(t[m..], true) == Join("-", Words(t[m..])) + (if EndsWithRun(t[m..]) then "-" else "")
    ensures CollapseRuns(t[k..], true) == Join("-", Words(t)) + (if EndsWithRun(t) then "-" else "")
  {
    var w, v := t[k..m], t[m..];
    CollapseCopiesWord(t, k, true);
    assert Words(t) == [w] + Words(v);
    JoinCons("-", w, Words(v));
    EndsWithRunAfterWord(t, k, m);
    if v != [] {
      CollapseEntersRun(v);
    }
    Assemble(w, CollapseRuns(v, false), Join("-", Words(v)), if EndsWithRun(v) then "-" else "",
             v == [], Words(v) == [], EndsWithRun(t));
  }

  /** After the first word, the text ends with a run exactly when something
      follows the word and that rest is a run alone or itself ends with one. */
  lemma EndsWithRunAfterWord(t: string, k: nat, m: nat)
    requires k == RunEnd(t, 0, false) && k < |t| && m == RunEnd(t, k, true)
    ensures EndsWithRun(t) == (m < |t| && (Words(t[m..]) == [] || EndsWithRun(t[m..])))
  {
    var v := t[m..];
    if v == [] {
      RunEndSpan(t, k, true);
      assert IsSlugChar(t[m - 1]);
    } else {
      assert t[|t| - 1] == v[|v| - 1];
      if Words(v) == [] {
        RunEndSpan(v, 0, false);
        assert !IsSlugChar(v[|v| - 1]);
      }
    }
  }

  /** The string algebra that closes `CollapseAfterWord`. */
  lemma Assemble(w: string, cv: string, jv: string, tl: string, vEmpty: bool, noWords: bool, endsT: bool)
    requires vEmpty ==> cv == [] && noWords
    requires !vEmpty ==> cv == "-" + (jv + tl)
    requires noWords ==> jv == [] && tl == []
    requires endsT == (!vEmpty && (noWords || tl == "-"))
    requires tl == [] || tl == "-"
    ensures w + cv == (if noWords then w else w + "-" + jv) + (if endsT then "-" else "")
  {
    if !vEmpty && !noWords {
      assert w + ("-" + (jv + tl)) == (w + "-" + jv) + tl;
    }
  }

  /** The first other character outside a run writes the run's dash. */
  lemma CollapseEntersRun(v: string)
    requires v != [] && !IsSlugChar(v[0])
    ensures CollapseRuns(v, false) == "-" + CollapseRuns(v, true)
  {
  }

  /** Outside and inside a run, `CollapseRuns` differs only by the dash a
      leading other character writes. */
  lemma CollapseStart(t: string)
    ensures CollapseRuns(t, false) == (if t != [] && !IsSlugChar(t[0]) then "-" else "") + CollapseRuns(t, true)
  {
    if t != [] && !IsSlugChar(t[0]) {
      CollapseEntersRun(t);
    }
  }

  lemma JoinCons(sep: string, w: string, ws: seq<string>)
    ensures Join(sep, [w] + ws) == if ws == [] then w else w + sep + Join(sep, ws)
  {
    assert ([w] + ws)[1..] == ws;
  }

  /** The words joined by dashes neither start nor end with a dash. */
  lemma {:induction false} JoinOfWordsEnds(ws: seq<string>)
    requires forall i :: 0 <= i < |ws| ==> IsWord(ws[i])
    ensures Join("-", ws) == [] || (IsSlugChar(Join("-", ws)[0]) && IsSlugChar(Join("-", ws)[|Join("-", ws)| - 1]))
  {
    if |ws| > 1 {
      JoinOfWordsEnds(ws[1..]);
      assert IsWord(ws[0]) && IsWord(ws[1..][0]);
      var j := Join("-", ws[1..]);
      assert Join("-", ws) == ws[0] + "-" + j;
    } else if |ws| == 1 {
      assert IsWord(ws[0]);
    }
  }

  lemma JoinedWordsEnds(t: string)
    ensures Join("-", Words(t)) == [] || (Join("-", Words(t))[0] != '-' && Join("-", Words(t))[|Join("-", Words(t))| - 1] != '-')
  {
    WordsAreWords(t);
    JoinOfWordsEnds(Words(t));
  }

  /** `slugId` keeps the words of the lower-cased text (its maximal runs of
      letters and digits) and puts exactly one dash between two of them. */
  lemma SlugIdIsJoinedWords(s: Value)
    ensures SlugId(s) == Join("-", Words(Lower(ToStr(Or(s, Str(""))))))
  {
    var t := Lower(ToStr(Or(s, Str(""))));
    CollapseFromStart(t);
  }

  /** `StripDashEnds` after `CollapseRuns` leaves the words joined by single dashes. */
  lemma CollapseFromStart(t: string)
    ensures StripDashEnds(CollapseRuns(t, false)) == Join("-", Words(t))
  {
    CollapseRunsJoinsWords(t);
    JoinedWordsEnds(t);
    CollapseStart(t);
    StripFramedDashes(if t != [] && !IsSlugChar(t[0]) then "-" else "", CollapseRuns(t, true),
                      Join("-", Words(t)), if EndsWithRun(t) then "-" else "");
  }

  lemma StripFramedDashes(d: string, c: string, j: string, tail: string)
    requires d == "" || d == "-"
    requires tail == "" || tail == "-"
    requires c == j + tail
    requires j == [] || (j[0] != '-' && j[|j| - 1] != '-')
    ensures StripDashEnds(d + c) == j
  {
    var t := d + c;
    if d == "-" {
      assert t[1..] == j + tail;
    } else {
      assert t == j + tail;
    }
  }

  lemma StripDashEndsKeepsAlphanumerics(t: string)
    ensures Filter(IsSlugChar, StripDashEnds(t)) == Filter(IsSlugChar, t)
  {
    var i := if t != [] && t[0] == '-' then 1 else 0;
    var u := t[i..];
    var j := if u != [] && u[|u| - 1] == '-' then |t| - 1 else |t|;
    assert StripDashEnds(t) == t[i..j];
    assert t == (t[..i] + t[i..j]) + t[j..];
    FilterAppend(IsSlugChar, t[..i] + t[i..j], t[j..]);
    FilterAppend(IsSlugChar, t[..i], t[i..j]);
    FilterOfDash(t[..i]);
    assert j < |t| ==> t[j] == u[|u| - 1];
    FilterOfDash(t[j..]);
  }

  /** Nothing, or one dash, keeps no letter or digit. */
  lemma FilterOfDash(s: string)
    requires |s| <= 1 && (s != [] ==> s[0] == '-')
    ensures Filter(IsSlugChar, s) == []
  {
    if s != [] {
      assert s[1..] == [];
    }
  }

  lemma {:induction false} CollapseRunsKeepsAlphanumerics(s: string, inRun: bool)
    ensures Filter(IsSlugChar, CollapseRuns(s, inRun)) == Filter(IsSlugChar, s)
  {
    if s != [] {
      CollapseRunsKeepsAlphanumerics(s[1..], !IsSlugChar(s[0]));
      if !IsSlugChar(s[0]) && !inRun {
        assert ("-" + CollapseRuns(s[1..], true))[1..] == CollapseRuns(s[1..], true);
      }
    }
  }

  lemma {:induction false} FilterAppend(p: char -> bool, a: string, b: string)
    ensures Filter(p, a + b) == Filter(p, a) + Filter(p, b)
  {
    if a == [] {
      assert a + b == b;
    } else {
      assert (a + b)[1..] == a[1..] + b;
      FilterAppend(p, a[1..], b);
    }
  }

  // ---------- escapeHtml ----------

  predicate IsHtmlSpecial(c: char) {
    c == '&' || c == '<' || c == '>' || c == '"' || c == '\''
  }

  /** The replacement the source's table gives each matched character. */
  function Entity(c: char): (r: string)
    ensures !IsHtmlSpecial(c) ==> r == [c]
  {
    match c
    case '&' => "&amp;"
    case '<' => "&lt;"
    case '>' => "&gt;"
    case '"' => "&quot;"
    case '\'' => "&#39;"
    case _ => [c]
  }

  /** `String(s).replace(/[&<>"']/g, ...)` on the string: each character replaced by its entity. */
  function Escape(s: string): (r: string)
    ensures forall i :: 0 <= i < |r| ==> r[i] != '<' && r[i] != '>' && r[i] != '"' && r[i] != '\''
  {
    if s == [] then [] else Entity(s[0]) + Escape(s[1..])
  }

  /** `escapeHtml(s)`. */
  function EscapeHtml(s: Value): string {
    Escape(ToStr(s))
  }

  /** Escaping works character by character. */
  lemma {:induction false} EscapeAppend(a: string, b: string)
    ensures Escape(a + b) == Escape(a) + Escape(b)
  {
    if a == [] {
      assert a + b == b;
    } else {
      assert (a + b)[1..] == a[1..] + b;
      EscapeAppend(a[1..], b);
    }
  }

  /** A string without any of `&<>"'` is copied unchanged. */
  lemma {:induction false} EscapeCopiesPlainText(s: string)
    requires forall i :: 0 <= i < |s| ==> !IsHtmlSpecial(s[i])
    ensures Escape(s) == s
  {
    if s != [] {
      EscapeCopiesPlainText(s[1..]);
      assert s == [s[0]] + s[1..];
    }
  }

  /** `p` stands at the front of `s`. */
  predicate StartsWith(s: string, p: string) {
    |p| <= |s| && s[..|p|] == p
  }

  /** The character that the front of a non-empty `s` decodes to, and how many
      characters it takes. */
  function ReadEntity(s: string): (r: (char, nat))
    requires s != []
    ensures 1 <= r.1 <= |s|
  {
    if StartsWith(s, "&amp;") then ('&', 5)
    else if StartsWith(s, "&lt;") then ('<', 4)
    else if StartsWith(s, "&gt;") then ('>', 4)
    else if StartsWith(s, "&quot;") then ('"', 6)
    else if StartsWith(s, "&#39;") then ('\'', 5)
    else (s[0], 1)
  }

  /** Reads the five entities back, left to right. */
  function Unescape(s: string): string
    decreases |s|
  {
    if s == [] then []
    else
      var (c, n) := ReadEntity(s);
      [c] + Unescape(s[n..])
  }

  /** Replacing the entities back gives the original string. */
  lemma {:induction false} UnescapeEscape(s: string)
    ensures Unescape(Escape(s)) == s
  {
    if s != [] {
      UnescapeEscape(s[1..]);
      var e := Entity(s[0]);
      var t := e + Escape(s[1..]);
      ReadEntityOfEntity(s[0], Escape(s[1..]));
      assert t[|e|..] == Escape(s[1..]);
      assert s == [s[0]] + s[1..];
    }
  }

  /** The decoder reads an entity back as the character it stands for. */
  lemma ReadEntityOfEntity(c: char, rest: string)
    ensures ReadEntity(Entity(c) + rest) == (c, |Entity(c)|)
  {
    var t := Entity(c) + rest;
    if c == '&' {
      assert t[..5] == "&amp;";
    } else if c == '<' {
      assert t[..4] == "&lt;";
      assert t[1] == 'l';
    } else if c == '>' {
      assert t[..4] == "&gt;";
      assert t[1] == 'g';
    } else if c == '"' {
      assert t[..6] == "&quot;";
      assert t[1] == 'q';
    } else if c == '\'' {
      assert t[..5] == "&#39;";
      assert t[1] == '#';
    } else {
      assert t[0] == c && t[0] != '&';
    }
  }

  // ---------- moneyCell, safeText ----------

  /** `null`, `undefined`, or a value whose text is all white space. */
  predicate IsBlank(v: Value) {
    IsNullish(v) || AllWhite(ToStr(v))
  }

  /** `moneyCell(val)`. */
  function MoneyCell(val: Value): (r: string)
    ensures r != ""
    ensures IsBlank(val) ==> r == Dash
    ensures !IsBlank(val) ==> r == Trim(ToStr(val))
  {
    TrimEmptyIff(ToStr(val));
    if IsNullish(val) then Dash
    else
      var t := Trim(ToStr(val));
      if t != "" then t else Dash
  }

  /** `safeText(v)`. */
  function SafeText(v: Value): (r: string)
    ensures r != ""
    ensures IsBlank(v) ==> r == Dash
    ensures !IsBlank(v) ==> r == Trim(ToStr(v))
  {
    TrimEmptyIff(ToStr(v));
    TrimEmptyIff(ToStr(Coalesce(v, Str(""))));
    var t := Trim(ToStr(Coalesce(v, Str(""))));
    if t != "" then t else Dash
  }

  /** The two helpers render every value alike. */
  lemma MoneyCellIsSafeText(v: Value)
    ensures MoneyCell(v) == SafeText(v)
  {
  }

  /** What either helper shows has no white space at its ends. */
  lemma MoneyCellIsTrimmed(v: Value)
    ensures var r := MoneyCell(v); !IsWhite(r[0]) && !IsWhite(r[|r| - 1])
  {
    TrimHasNoWhiteEnds(ToStr(v));
  }

  // ---------- imgUrl ----------

  /** `imgUrl(fileName)`; `encodeURIComponent` is a parameter. */
  function ImgUrl(fileName: Value, encodeUriComponent: string -> string): (r: string)
    ensures r == "" <==> !Truthy(fileName) || AllWhite(ToStr(fileName))
    ensures r != "" ==> r == OfficialFilePath + encodeUriComponent(Trim(ToStr(fileName)))
  {
    var f := Trim(ToStr(Or(fileName, Str(""))));
    TrimEmptyIff(ToStr(fileName));
    if f == "" then "" else OfficialFilePath + encodeUriComponent(f)
  }
}
