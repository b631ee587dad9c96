/** String helpers with the meaning JavaScript gives them: `trim`,
    `toLowerCase` (restricted to ASCII letters), `join` and `includes`. */
module Text {

  /** ECMAScript WhiteSpace and LineTerminator code points: what `trim` removes. */
  predicate IsWhite(c: char) {
    c == '\t' || c == '\n' || c == '\U{000B}' || c == '\U{000C}' || c == '\r' || c == ' '
    || c == '\U{00A0}' || c == '\U{1680}' || ('\U{2000}' <= c <= '\U{200A}')
    || c == '\U{2028}' || c == '\U{2029}' || c == '\U{202F}' || c == '\U{205F}'
    || c == '\U{3000}' || c == '\U{FEFF}'
  }

  predicate AllWhite(s: string) {
    forall k :: 0 <= k < |s| ==> IsWhite(s[k])
  }

  /** The first index at or after `i` that does not hold white space
      (`|s|` when there is none): where `trim`'s result starts. */
  function StartOfText(s: string, i: nat): (n: nat)
    requires i <= |s|
    ensures i <= n <= |s|
    decreases |s| - i
  {
    if i < |s| && IsWhite(s[i]) then StartOfText(s, i + 1) else i
  }

  /** The end of `s[lo..j]` once its trailing white space is dropped: where
      `trim`'s result ends. */
  function EndOfText(s: string, lo: nat, j: nat): (n: nat)
    requires lo <= j <= |s|
    ensures lo <= n <= j
    decreases j
  {
    if lo < j && IsWhite(s[j - 1]) then EndOfText(s, lo, j - 1) else j
  }

  /** `String.prototype.trim`: white space is dropped from both ends. */
  function Trim(s: string): string
  {
    var i := StartOfText(s, 0);
    s[i..EndOfText(s, i, |s|)]
  }

  /** What `StartOfText` skips is white, and it stops at text or at the end. */
  lemma {:induction false} StartOfTextSkipsWhite(s: string, i: nat)
    requires i <= |s|
    ensures forall k :: i <= k < StartOfText(s, i) ==> IsWhite(s[k])
    ensures StartOfText(s, i) == |s| || !IsWhite(s[StartOfText(s, i)])
    decreases |s| - i
  {
    if i < |s| && IsWhite(s[i]) {
      StartOfTextSkipsWhite(s, i + 1);
    }
  }

  /** What `EndOfText` drops is white, and it stops at text or at `lo`. */
  lemma {:induction false} EndOfTextSkipsWhite(s: string, lo: nat, j: nat)
    requires lo <= j <= |s|
    ensures forall k :: EndOfText(s, lo, j) <= k < j ==> IsWhite(s[k])
    ensures EndOfText(s, lo, j) == lo || !IsWhite(s[EndOfText(s, lo, j) - 1])
    decreases j
  {
    if lo < j && IsWhite(s[j - 1]) {
      EndOfTextSkipsWhite(s, lo, j - 1);
    }
  }

  /** The trimmed string is the middle of `s` between two white runs. */
  lemma TrimIsMiddle(s: string)
    ensures exists i, j :: 0 <= i <= j <= |s| && Trim(s) == s[i..j] && AllWhite(s[..i]) && AllWhite(s[j..])
  {
    var i := StartOfText(s, 0);
    var j := EndOfText(s, i, |s|);
    StartOfTextSkipsWhite(s, 0);
    EndOfTextSkipsWhite(s, i, |s|);
    assert AllWhite(s[..i]) && AllWhite(s[j..]);
  }

  /** The trimmed string neither starts nor ends with white space. */
  lemma TrimHasNoWhiteEnds(s: string)
    ensures Trim(s) == [] || (!IsWhite(Trim(s)[0]) && !IsWhite(Trim(s)[|Trim(s)| - 1]))
  {
    var i := StartOfText(s, 0);
    var j := EndOfText(s, i, |s|);
    StartOfTextSkipsWhite(s, 0);
    EndOfTextSkipsWhite(s, i, |s|);
    if i < j {
      assert Trim(s)[0] == s[i];
      assert Trim(s)[|Trim(s)| - 1] == s[j - 1];
    }
  }

  /** A string trims to nothing exactly when it is all white space. */
  lemma TrimEmptyIff(s: string)
    ensures Trim(s) == [] <==> AllWhite(s)
  {
    var i := StartOfText(s, 0);
    var j := EndOfText(s, i, |s|);
    StartOfTextSkipsWhite(s, 0);
    EndOfTextSkipsWhite(s, i, |s|);
    if AllWhite(s) {
      assert i == |s|;
    }
    if Trim(s) == [] {
      assert j == i;
      assert forall k :: 0 <= k < |s| ==> IsWhite(s[k]);
    }
  }

  /** A string without white ends is left as it is. */
  lemma TrimUnchanged(s: string)
    requires s == [] || (!IsWhite(s[0]) && !IsWhite(s[|s| - 1]))
    ensures Trim(s) == s
  {
    assert StartOfText(s, 0) == 0;
  }

  lemma TrimIdempotent(s: string)
    ensures Trim(Trim(s)) == Trim(s)
  {
    TrimHasNoWhiteEnds(s);
    TrimUnchanged(Trim(s));
  }

  function LowerChar(c: char): (d: char)
  {
    if 'A' <= c <= 'Z' then (c as int + 32) as char else c
  }

  /** `toLowerCase` on ASCII letters; every other character is copied. */
  function Lower(s: string): string
  {
    seq(|s|, k requires 0 <= k < |s| => LowerChar(s[k]))
  }

  lemma LowerAppend(a: string, b: string)
    ensures Lower(a + b) == Lower(a) + Lower(b)
  {
    assert Lower(a + b) == Lower(a) + Lower(b) by {
      assert forall k :: 0 <= k < |a + b| ==> Lower(a + b)[k] == (Lower(a) + Lower(b))[k];
    }
  }

  /** Lower-casing leaves white space where it is, so it commutes with trimming. */
  lemma LowerTrim(s: string)
    ensures Lower(Trim(s)) == Trim(Lower(s))
  {
    var i := StartOfText(s, 0);
    var j := EndOfText(s, i, |s|);
    LowerStartOfText(s, 0);
    LowerEndOfText(s, i, |s|);
    LowerSlice(s, i, j);
  }

  /** Lower-casing changes only ASCII letters, so it keeps white space white
      and everything else non-white. */
  lemma LowerCharWhite(c: char)
    ensures IsWhite(LowerChar(c)) == IsWhite(c)
  {
  }

  lemma {:induction false} LowerStartOfText(s: string, i: nat)
    requires i <= |s|
    ensures StartOfText(Lower(s), i) == StartOfText(s, i)
    decreases |s| - i
  {
    if i < |s| {
      LowerCharWhite(s[i]);
      if IsWhite(s[i]) {
        LowerStartOfText(s, i + 1);
      }
    }
  }

  lemma {:induction false} LowerEndOfText(s: string, lo: nat, j: nat)
    requires lo <= j <= |s|
    ensures EndOfText(Lower(s), lo, j) == EndOfText(s, lo, j)
    decreases j
  {
    if lo < j {
      LowerCharWhite(s[j - 1]);
      if IsWhite(s[j - 1]) {
        LowerEndOfText(s, lo, j - 1);
      }
    }
  }

  /** Lower-casing a slice is slicing the lower-cased string. */
  lemma LowerSlice(s: string, i: nat, j: nat)
    requires i <= j <= |s|
    ensures Lower(s[i..j]) == Lower(s)[i..j]
  {
    var a, b := Lower(s[i..j]), Lower(s)[i..j];
    forall k | 0 <= k < j - i
      ensures a[k] == b[k]
    {
      assert b[k] == Lower(s)[i + k] == LowerChar(s[i + k]);
    }
  }

  /** `parts.join(sep)`. */
  function Join(sep: string, parts: seq<string>): (r: string)
  {
    if parts == [] then ""
    else if |parts| == 1 then parts[0]
    else parts[0] + sep + Join(sep, parts[1..])
  }

  /** Every part stands in the joined string, with something (possibly empty) on either side. */
  lemma {:induction false} JoinContainsPart(sep: string, parts: seq<string>, k: nat)
    requires k < |parts|
    ensures exists pre, post :: Join(sep, parts) == pre + parts[k] + post
  {
    if |parts| == 1 {
      assert Join(sep, parts) == "" + parts[0] + "";
    } else if k == 0 {
      assert Join(sep, parts) == "" + parts[0] + (sep + Join(sep, parts[1..]));
    } else {
      JoinContainsPart(sep, parts[1..], k - 1);
      var pre, post :| Join(sep, parts[1..]) == pre + parts[1..][k - 1] + post;
      assert Join(sep, parts) == (parts[0] + sep + pre) + parts[k] + post;
    }
  }

  /** `hay.includes(needle)`. */
  predicate Contains(hay: string, needle: string) {
    exists i :: 0 <= i <= |hay| - |needle| && OccursAt(hay, needle, i)
  }

  predicate OccursAt(hay: string, needle: string, i: int) {
    0 <= i <= |hay| - |needle| && hay[i..i + |needle|] == needle
  }

  lemma ContainsInMiddle(pre: string, mid: string, post: string, needle: string)
    requires Contains(mid, needle)
    ensures Contains(pre + mid + post, needle)
  {
    var i: int :| 0 <= i <= |mid| - |needle| && OccursAt(mid, needle, i);
    var hay := pre + mid + post;
    assert hay[|pre| + i..|pre| + i + |needle|] == mid[i..i + |needle|];
    assert OccursAt(hay, needle, |pre| + i);
  }

  /** Code-point order of two strings: the order of JavaScript's `<` and
      default `sort` for characters below U+10000 (JavaScript compares UTF-16
      code units, so characters above it order differently). */
  predicate LexLe(a: string, b: string) {
    if a == [] then true
    else if b == [] then false
    else if a[0] != b[0] then a[0] < b[0]
    else LexLe(a[1..], b[1..])
  }

  lemma {:induction false} LexLeTotal(a: string, b: string)
    ensures LexLe(a, b) || LexLe(b, a)
  {
    if a != [] && b != [] && a[0] == b[0] {
      LexLeTotal(a[1..], b[1..]);
    }
  }

  lemma {:induction false} LexLeTransitive(a: string, b: string, c: string)
    requires LexLe(a, b) && LexLe(b, c)
    ensures LexLe(a, c)
  {
    if a != [] && b != [] && c != [] && a[0] == b[0] && b[0] == c[0] {
      LexLeTransitive(a[1..], b[1..], c[1..]);
    }
  }

  lemma {:induction false} LexLeAntisymmetric(a: string, b: string)
    requires LexLe(a, b) && LexLe(b, a)
    ensures a == b
  {
    if a != [] && b != [] {
      LexLeAntisymmetric(a[1..], b[1..]);
      assert a == [a[0]] + a[1..];
      assert b == [b[0]] + b[1..];
    }
  }
}
