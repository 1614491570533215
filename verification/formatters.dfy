/** String formatters of the shared utilities package: French phone numbers,
    truncation with an ellipsis, and URL slugs (for ASCII text). */
module Formatters {

  predicate IsDigit(c: char) {
    '0' <= c <= '9'
  }

  /** The digits of `s` in order: `s.replace(/\D/g, "")`. */
  function Digits(s: string): (d: string)
    ensures |d| <= |s|
    ensures forall i :: 0 <= i < |d| ==> IsDigit(d[i])
    decreases |s|
  {
    if |s| == 0 then "" else (if IsDigit(s[0]) then [s[0]] else "") + Digits(s[1..])
  }

  lemma DigitsConcat(a: string, b: string)
    ensures Digits(a + b) == Digits(a) + Digits(b)
    decreases |a|
  {
    if |a| > 0 {
      assert (a + b)[1..] == a[1..] + b;
      DigitsConcat(a[1..], b);
    } else {
      assert a + b == b;
    }
  }

  lemma DigitsOfDigits(d: string)
    requires forall i :: 0 <= i < |d| ==> IsDigit(d[i])
    ensures Digits(d) == d
    decreases |d|
  {
    if |d| > 0 {
      DigitsOfDigits(d[1..]);
    }
  }

  /** The digits in pairs separated by single spaces. */
  function Pairs(d: string): (r: string)
    requires |d| >= 2 && |d| % 2 == 0
    ensures |r| == |d| + |d| / 2 - 1
    ensures forall i :: 0 <= i < |r| && i % 3 != 2 ==> r[i] == d[i - i / 3]
    ensures forall i :: 0 <= i < |r| && i % 3 == 2 ==> r[i] == ' '
    decreases |d|
  {
    if |d| == 2 then d
    else
      var rest := Pairs(d[2..]);
      PairsStep(d, rest);
      d[..2] + " " + rest
  }

  /** One more pair in front keeps the layout: positions shift by three. */
  lemma PairsStep(d: string, rest: string)
    requires |d| >= 4
    requires |rest| == |d| - 2 + (|d| - 2) / 2 - 1
    requires forall i :: 0 <= i < |rest| && i % 3 != 2 ==> rest[i] == d[2..][i - i / 3]
    requires forall i :: 0 <= i < |rest| && i % 3 == 2 ==> rest[i] == ' '
    ensures var r := d[..2] + " " + rest;
            && (forall i :: 0 <= i < |r| && i % 3 != 2 ==> r[i] == d[i - i / 3])
            && (forall i :: 0 <= i < |r| && i % 3 == 2 ==> r[i] == ' ')
  {
    var r := d[..2] + " " + rest;
    forall i | 0 <= i < |r|
      ensures (i % 3 != 2 ==> r[i] == d[i - i / 3]) && (i % 3 == 2 ==> r[i] == ' ')
    {
      if i >= 3 {
        ShiftThree(i);
        assert r[i] == rest[i - 3];
      }
    }
  }

  lemma ShiftThree(i: int)
    requires i >= 3
    ensures i / 3 == (i - 3) / 3 + 1 && i % 3 == (i - 3) % 3
  {
  }

  lemma {:induction false} DigitsOfPairs(d: string)
    requires |d| >= 2 && |d| % 2 == 0
    requires forall i :: 0 <= i < |d| ==> IsDigit(d[i])
    ensures Digits(Pairs(d)) == d
    decreases |d|
  {
    if |d| == 2 {
      DigitsOfDigits(d);
    } else {
      DigitsOfPairs(d[2..]);
      DigitsOfDigits(d[..2]);
      DigitsConcat(d[..2] + " ", Pairs(d[2..]));
      DigitsConcat(d[..2], " ");
      assert d == d[..2] + d[2..];
    }
  }

  /** `formatPhone`: exactly ten digits are printed as five space-separated
      pairs (`06 12 34 56 78`); any other input is returned as it is. */
  function FormatPhone(phone: string): (r: string)
    ensures |Digits(phone)| != 10 ==> r == phone
    ensures |Digits(phone)| == 10 ==>
              && |r| == 14
              && (forall i :: 0 <= i < 14 ==> (r[i] == ' ' <==> i % 3 == 2))
              && (forall i :: 0 <= i < 14 && i % 3 != 2 ==> r[i] == Digits(phone)[i - i / 3])
  {
    var d := Digits(phone);
    if |d| == 10 then Pairs(d) else phone
  }

  /** Formatting keeps exactly the digits of the number, so formatting a
      formatted number changes nothing. */
  lemma FormatPhoneIdempotent(phone: string)
    ensures Digits(FormatPhone(phone)) == Digits(phone)
    ensures FormatPhone(FormatPhone(phone)) == FormatPhone(phone)
  {
    if |Digits(phone)| == 10 {
      DigitsOfPairs(Digits(phone));
    }
  }

  /** `truncate`: text no longer than `length` is kept; longer text is cut with
      `slice(0, length)` (a negative `length` counts from the end) and gets `"..."`. */
  function Truncate(text: string, length: int): (r: string)
    ensures |text| <= length ==> r == text
    ensures 0 <= length < |text| ==> r == text[..length] + "..." && |r| == length + 3
    ensures length < 0 ==> r == text[..if |text| + length > 0 then |text| + length else 0] + "..."
  {
    if |text| <= length then text
    else
      var end := if length >= 0 then length else if |text| + length > 0 then |text| + length else 0;
      text[..end] + "..."
  }

  /** A truncated text fits the longer budget that includes its ellipsis. */
  lemma TruncateSettles(text: string, length: nat)
    ensures Truncate(Truncate(text, length), length + 3) == Truncate(text, length)
    ensures |Truncate(text, length)| <= length + 3
  {
  }

  // ---------------------------------------------------------------------------
  // Slugs

  predicate IsAscii(s: string) {
    forall i :: 0 <= i < |s| ==> s[i] < 128 as char
  }

  function LowerChar(c: char): char {
    if 'A' <= c <= 'Z' then (c as int + 32) as char else c
  }

  /** `toLowerCase` on ASCII text. */
  function Lower(s: string): (r: string)
    ensures |r| == |s| && forall i :: 0 <= i < |s| ==> r[i] == LowerChar(s[i])
  {
    seq(|s|, i requires 0 <= i < |s| => LowerChar(s[i]))
  }

  /** The characters `[a-z0-9]` a slug keeps. */
  predicate IsSlugChar(c: char) {
    'a' <= c <= 'z' || '0' <= c <= '9'
  }

  /** `.replace(/[^a-z0-9]+/g, "-")`: each maximal run of other characters
      becomes one hyphen; `inRun` says a run has already been replaced. */
  function CollapseRuns(s: string, inRun: bool): string
    decreases |s|
  {
    if |s| == 0 then ""
    else if IsSlugChar(s[0]) then [s[0]] + CollapseRuns(s[1..], false)
    else if inRun then CollapseRuns(s[1..], true)
    else "-" + CollapseRuns(s[1..], true)
  }

  function DropLeadingHyphens(s: string): string
    decreases |s|
  {
    if |s| > 0 && s[0] == '-' then DropLeadingHyphens(s[1..]) else s
  }

  function DropTrailingHyphens(s: string): string
    decreases |s|
  {
    if |s| > 0 && s[|s| - 1] == '-' then DropTrailingHyphens(s[..|s| - 1]) else s
  }

  /** `.replace(/^-+|-+$/g, "")`. */
  function TrimHyphens(s: string): string {
    DropTrailingHyphens(DropLeadingHyphens(s))
  }

  /** The maximal runs of slug characters of `s`, in order. */
  function Words(s: string): (ws: seq<string>)
    ensures forall k :: 0 <= k < |ws| ==> IsWord(ws[k])
    ensures |s| > 0 && IsSlugChar(s[0]) ==> |ws| > 0 && |ws[0]| > 0 && ws[0][0] == s[0]
    decreases |s|
  {
    if |s| == 0 then []
    else if !IsSlugChar(s[0]) then Words(s[1..])
    else
      var rest := Words(s[1..]);
      if |s| > 1 && IsSlugChar(s[1]) then [[s[0]] + rest[0]] + rest[1..]
      else [[s[0]]] + rest
  }

  predicate IsWord(w: string) {
    |w| > 0 && forall i :: 0 <= i < |w| ==> IsSlugChar(w[i])
  }

  /** The words joined by single hyphens. */
  function JoinHyphen(ws: seq<string>): string
    decreases |ws|
  {
    if |ws| == 0 then "" else if |ws| == 1 then ws[0] else ws[0] + "-" + JoinHyphen(ws[1..])
  }

  /** A slug: only `[a-z0-9-]`, no hyphen at either end, no two hyphens in a row. */
  predicate IsSlug(s: string) {
    && (forall i :: 0 <= i < |s| ==> IsSlugChar(s[i]) || s[i] == '-')
    && (|s| > 0 ==> s[0] != '-' && s[|s| - 1] != '-')
    && (forall i :: 0 <= i < |s| - 1 ==> s[i] == '-' ==> s[i + 1] != '-')
  }

  /** `slugify` on ASCII text: lower-case, turn every run of characters
      outside `[a-z0-9]` into one hyphen, and strip the hyphens at the ends.
      The result is the text's words joined by single hyphens. */
  function Slugify(text: string): (r: string)
    requires IsAscii(text)
    ensures r == JoinHyphen(Words(Lower(text)))
    ensures IsSlug(r)
  {
    var lowered := Lower(text);
    CollapseMatchesWords(lowered, false);
    TrimAroundJoin(Words(lowered), LeadSep(lowered), TrailSep(lowered) && |Words(lowered)| > 0);
    JoinIsSlug(Words(lowered));
    TrimHyphens(CollapseRuns(lowered, false))
  }

  predicate LeadSep(s: string) {
    |s| > 0 && !IsSlugChar(s[0])
  }

  predicate TrailSep(s: string) {
    |s| > 0 && !IsSlugChar(s[|s| - 1])
  }

  function Hyphen(b: bool): string {
    if b then "-" else ""
  }

  lemma NoWordsAllSeparators(s: string)
    requires |Words(s)| == 0 && |s| > 0
    ensures !IsSlugChar(s[|s| - 1])
    decreases |s|
  {
    if IsSlugChar(s[0]) {
      assert false;
    } else if |s| > 1 {
      NoWordsAllSeparators(s[1..]);
    }
  }

  lemma {:induction false} JoinPrependChar(c: char, ws: seq<string>)
    requires |ws| > 0
    ensures JoinHyphen([[c] + ws[0]] + ws[1..]) == [c] + JoinHyphen(ws)
  {
    var ws' := [[c] + ws[0]] + ws[1..];
    assert ws'[1..] == ws[1..];
  }

  /** The collapsed text is the hyphen-joined words, with at most one hyphen
      before (a leading run not yet replaced) and after (a trailing run). */
  lemma {:induction false} CollapseMatchesWords(s: string, inRun: bool)
    ensures CollapseRuns(s, inRun)
         == Hyphen(LeadSep(s) && !inRun) + JoinHyphen(Words(s)) + Hyphen(TrailSep(s) && |Words(s)| > 0)
    decreases |s|, 1
  {
    if |s| == 0 {
    } else if !IsSlugChar(s[0]) {
      CollapseSeparatorFirst(s, inRun);
    } else {
      CollapseSlugCharFirst(s, inRun);
    }
  }

  lemma {:induction false} CollapseSeparatorFirst(s: string, inRun: bool)
    requires |s| > 0 && !IsSlugChar(s[0])
    ensures CollapseRuns(s, inRun)
         == Hyphen(LeadSep(s) && !inRun) + JoinHyphen(Words(s)) + Hyphen(TrailSep(s) && |Words(s)| > 0)
    decreases |s|, 0
  {
    var t := s[1..];
    CollapseMatchesWords(t, true);
    assert CollapseRuns(s, inRun) == Hyphen(!inRun) + CollapseRuns(t, true);
    assert Words(s) == Words(t);
    assert TrailSep(s) && |Words(s)| > 0 <==> TrailSep(t) && |Words(t)| > 0 by {
      if |t| > 0 {
        assert s[|s| - 1] == t[|t| - 1];
      }
    }
  }

  lemma {:induction false} CollapseSlugCharFirst(s: string, inRun: bool)
    requires |s| > 0 && IsSlugChar(s[0])
    ensures CollapseRuns(s, inRun)
         == Hyphen(LeadSep(s) && !inRun) + JoinHyphen(Words(s)) + Hyphen(TrailSep(s) && |Words(s)| > 0)
    decreases |s|, 0
  {
    var t := s[1..];
    CollapseMatchesWords(t, false);
    if |t| == 0 {
      assert CollapseRuns(s, inRun) == [s[0]] + CollapseRuns(t, false);
      assert Words(s) == [[s[0]]];
    } else {
      SlugCharBeforeText(s, inRun);
    }
  }

  /** The step of `CollapseSlugCharFirst` for a text of two or more
      characters, given the collapse of its tail. */
  lemma SlugCharBeforeText(s: string, inRun: bool)
    requires |s| > 1 && IsSlugChar(s[0])
    requires CollapseRuns(s[1..], false)
          == Hyphen(LeadSep(s[1..])) + JoinHyphen(Words(s[1..])) + Hyphen(TrailSep(s[1..]) && |Words(s[1..])| > 0)
    ensures CollapseRuns(s, inRun)
         == Hyphen(LeadSep(s) && !inRun) + JoinHyphen(Words(s)) + Hyphen(TrailSep(s) && |Words(s)| > 0)
  {
    var t, c := s[1..], s[0];
    var a, b, d := Hyphen(LeadSep(t)), JoinHyphen(Words(t)), Hyphen(TrailSep(t) && |Words(t)| > 0);
    var e, w, h := Hyphen(LeadSep(s) && !inRun), JoinHyphen(Words(s)), Hyphen(TrailSep(s) && |Words(s)| > 0);
    assert CollapseRuns(s, inRun) == [c] + CollapseRuns(t, false);
    WordsAfterSlugChar(s);
    assert TrailSep(s) == TrailSep(t);
    assert e == "";
    Glue([c], a, b, d, e, w, h, CollapseRuns(s, inRun));
  }

  lemma Glue(p: string, a: string, b: string, d: string, e: string, w: string, h: string, x: string)
    requires x == p + (a + b + d) && p + a + b + d == w + h && e == ""
    ensures x == e + w + h
  {
    assert p + (a + b + d) == p + a + b + d;
    assert e + w + h == w + h;
  }

  /** A word character in front of a non-empty text joins its first word, or
      starts a word of its own when a separator follows it. */
  lemma WordsAfterSlugChar(s: string)
    requires |s| > 1 && IsSlugChar(s[0])
    ensures var t := s[1..];
            [s[0]] + Hyphen(LeadSep(t)) + JoinHyphen(Words(t)) + Hyphen(TrailSep(t) && |Words(t)| > 0)
            == JoinHyphen(Words(s)) + Hyphen(TrailSep(t) && |Words(s)| > 0)
  {
    var t := s[1..];
    var c, lead, jt, h := [s[0]], Hyphen(LeadSep(t)), JoinHyphen(Words(t)), Hyphen(TrailSep(t) && |Words(t)| > 0);
    var js, h2 := JoinHyphen(Words(s)), Hyphen(TrailSep(t) && |Words(s)| > 0);
    if IsSlugChar(t[0]) {
      WordCharThenWord(s);
      assert lead == "" && h2 == h;
      assert c + lead == c;
      Regroup(c, lead, jt, h, js);
    } else if |Words(t)| > 0 {
      WordCharThenSeparator(s);
      assert lead == "-" && h2 == h;
      Regroup(c, lead, jt, h, js);
    } else {
      NoWordsAllSeparators(t);
      assert Words(s) == [[s[0]]];
      assert js == c;
      assert lead == "-" && jt == "" && h == "" && h2 == "-";
      assert c + lead + jt + h == c + lead;
    }
  }

  lemma Regroup(a: string, b: string, c: string, d: string, x: string)
    requires x == a + b + c
    ensures a + b + c + d == x + d
  {
  }

  lemma WordCharThenWord(s: string)
    requires |s| > 1 && IsSlugChar(s[0]) && IsSlugChar(s[1])
    ensures |Words(s[1..])| > 0 && |Words(s)| > 0
    ensures JoinHyphen(Words(s)) == [s[0]] + JoinHyphen(Words(s[1..]))
  {
    var rest := Words(s[1..]);
    assert Words(s) == [[s[0]] + rest[0]] + rest[1..];
    JoinPrependChar(s[0], rest);
  }

  lemma WordCharThenSeparator(s: string)
    requires |s| > 1 && IsSlugChar(s[0]) && !IsSlugChar(s[1]) && |Words(s[1..])| > 0
    ensures JoinHyphen(Words(s)) == [s[0]] + "-" + JoinHyphen(Words(s[1..]))
  {
    var rest := Words(s[1..]);
    assert Words(s) == [[s[0]]] + rest;
    assert ([[s[0]]] + rest)[1..] == rest;
  }

  lemma JoinEnds(ws: seq<string>)
    requires |ws| > 0 && forall k :: 0 <= k < |ws| ==> IsWord(ws[k])
    ensures var j := JoinHyphen(ws); |j| > 0 && IsSlugChar(j[0]) && IsSlugChar(j[|j| - 1])
    decreases |ws|
  {
    if |ws| > 1 {
      JoinEnds(ws[1..]);
    }
  }

  lemma DropLeadingStops(s: string)
    requires |s| == 0 || s[0] != '-'
    ensures DropLeadingHyphens(s) == s
  {
  }

  lemma DropTrailingStops(s: string)
    requires |s| == 0 || s[|s| - 1] != '-'
    ensures DropTrailingHyphens(s) == s
  {
  }

  lemma TrimAroundJoin(ws: seq<string>, lead: bool, trail: bool)
    requires forall k :: 0 <= k < |ws| ==> IsWord(ws[k])
    requires trail ==> |ws| > 0
    ensures TrimHyphens(Hyphen(lead) + JoinHyphen(ws) + Hyphen(trail)) == JoinHyphen(ws)
  {
    if |ws| == 0 {
      assert Hyphen(lead) + JoinHyphen(ws) + Hyphen(trail) == Hyphen(lead);
      assert DropLeadingHyphens(Hyphen(lead)) == "";
    } else {
      JoinEnds(ws);
      TrimAroundWord(JoinHyphen(ws), lead, trail);
    }
  }

  lemma TrimAroundWord(j: string, lead: bool, trail: bool)
    requires |j| > 0 && j[0] != '-' && j[|j| - 1] != '-'
    ensures TrimHyphens(Hyphen(lead) + j + Hyphen(trail)) == j
  {
    var x := Hyphen(lead) + j + Hyphen(trail);
    var y := j + Hyphen(trail);
    assert DropLeadingHyphens(x) == y by {
      if lead {
        assert x[1..] == y;
        DropLeadingStops(y);
      } else {
        assert x == y;
        DropLeadingStops(y);
      }
    }
    if trail {
      assert y[..|j|] == j;
      DropTrailingStops(j);
    } else {
      assert y == j;
      DropTrailingStops(j);
    }
  }

  lemma {:induction false} JoinIsSlug(ws: seq<string>)
    requires forall k :: 0 <= k < |ws| ==> IsWord(ws[k])
    ensures IsSlug(JoinHyphen(ws))
    decreases |ws|
  {
    if |ws| > 1 {
      JoinIsSlug(ws[1..]);
      JoinEnds(ws[1..]);
      var j := ws[0] + "-" + JoinHyphen(ws[1..]);
      assert forall i :: 0 <= i < |ws[0]| ==> j[i] == ws[0][i];
      assert j[|ws[0]|] == '-';
      assert forall i :: |ws[0]| < i < |j| ==> j[i] == JoinHyphen(ws[1..])[i - |ws[0]| - 1];
    }
  }

  /** Splitting a hyphen-joined list of words gives the words back. */
  lemma {:induction false} WordsOfJoin(ws: seq<string>)
    requires forall k :: 0 <= k < |ws| ==> IsWord(ws[k])
    ensures Words(JoinHyphen(ws)) == ws
    decreases |ws|
  {
    if |ws| == 1 {
      WordsOfWordThen(ws[0], "");
      assert ws[0] + "" == ws[0];
    } else if |ws| > 1 {
      WordsOfJoin(ws[1..]);
      var tail := "-" + JoinHyphen(ws[1..]);
      WordsOfWordThen(ws[0], tail);
      assert tail[1..] == JoinHyphen(ws[1..]);
      assert ws[0] + "-" + JoinHyphen(ws[1..]) == ws[0] + tail;
      assert ws == [ws[0]] + ws[1..];
    }
  }

  /** A word followed by a separator (or nothing) is the first word. */
  lemma {:induction false} WordsOfWordThen(w: string, t: string)
    requires IsWord(w)
    requires |t| == 0 || !IsSlugChar(t[0])
    ensures Words(w + t) == [w] + Words(t)
    decreases |w|
  {
    var s := w + t;
    assert s[1..] == w[1..] + t;
    if |w| == 1 {
      assert s[1..] == t;
      assert w == [s[0]];
    } else {
      WordsOfWordThen(w[1..], t);
      assert IsSlugChar(s[1]);
      assert [s[0]] + w[1..] == w;
    }
  }

  lemma LowerOfSlug(s: string)
    requires IsSlug(s)
    ensures Lower(s) == s
  {
  }

  /** Slugifying a slug changes nothing, so `slugify` is idempotent. */
  lemma SlugifyIdempotent(text: string)
    requires IsAscii(text)
    ensures IsAscii(Slugify(text))
    ensures Slugify(Slugify(text)) == Slugify(text)
  {
    var r := Slugify(text);
    var ws := Words(Lower(text));
    LowerOfSlug(r);
    WordsOfJoin(ws);
  }
}
