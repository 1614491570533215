/** The string schemas of the shared utilities package (French postal codes
    and phone numbers) as recognisers, and the mapping of a schema's parse
    outcome to the `validate` result. */
module Validators {
  import opened Base
  import Formatters

  // ---------------------------------------------------------------------------
  // Postal codes: `^[0-9]{5}$`

  /** `[0-9]{n}` anchored at both ends. */
  function MatchDigits(s: string, n: nat): (ok: bool)
    ensures ok <==> |s| == n && forall i :: 0 <= i < |s| ==> Formatters.IsDigit(s[i])
    decreases n
  {
    if n == 0 then |s| == 0
    else |s| > 0 && Formatters.IsDigit(s[0]) && MatchDigits(s[1..], n - 1)
  }

  /** The postal-code pattern accepts exactly the strings of five ASCII digits. */
  predicate IsPostalCode(s: string) {
    MatchDigits(s, 5)
  }

  // ---------------------------------------------------------------------------
  // Phone numbers: `^(?:(?:\+|00)33|0)\s*[1-9](?:[\s.-]*\d{2}){4}$`

  /** The national or international prefix the pattern opens with. */
  datatype Prefix = Plus33 | Zero033 | Zero

  function PrefixText(p: Prefix): string {
    match p
    case Plus33 => "+33"
    case Zero033 => "0033"
    case Zero => "0"
  }

  /** A character of the class `[\s.-]` that may precede a digit pair. */
  predicate IsGroupSep(c: char) {
    IsJsSpace(c) || c == '.' || c == '-'
  }

  /** One `[\s.-]*\d{2}` group: a run of separators, then two digits. */
  datatype Group = Group(sep: string, pair: string)

  /** The parts of a matched number, in text order. */
  datatype PhoneParts = PhoneParts(prefix: Prefix, spaces: string, first: char, groups: seq<Group>)

  predicate GroupOk(g: Group) {
    && (forall i :: 0 <= i < |g.sep| ==> IsGroupSep(g.sep[i]))
    && |g.pair| == 2 && Formatters.IsDigit(g.pair[0]) && Formatters.IsDigit(g.pair[1])
  }

  /** The parts the pattern describes: white space after the prefix, a first
      digit 1-9 and exactly four groups. */
  predicate WellFormed(p: PhoneParts) {
    && (forall i :: 0 <= i < |p.spaces| ==> IsJsSpace(p.spaces[i]))
    && '1' <= p.first <= '9'
    && |p.groups| == 4
    && (forall k :: 0 <= k < 4 ==> GroupOk(p.groups[k]))
  }

  function RenderGroups(gs: seq<Group>): string
    decreases |gs|
  {
    if |gs| == 0 then "" else gs[0].sep + gs[0].pair + RenderGroups(gs[1..])
  }

  /** The text the parts spell out. */
  function Render(p: PhoneParts): string {
    PrefixText(p.prefix) + p.spaces + [p.first] + RenderGroups(p.groups)
  }

  /** Number of leading `[\s.-]` characters. */
  function SepSpan(s: string): (n: nat)
    ensures n <= |s|
    ensures forall i :: 0 <= i < n ==> IsGroupSep(s[i])
    ensures n < |s| ==> !IsGroupSep(s[n])
  {
    if |s| == 0 || !IsGroupSep(s[0]) then 0 else 1 + SepSpan(s[1..])
  }

  /** Exactly `n` groups and nothing after them. */
  function ParseGroups(s: string, n: nat): (r: Option<seq<Group>>)
    ensures r.Some? ==> |r.value| == n && (forall k :: 0 <= k < n ==> GroupOk(r.value[k]))
                        && RenderGroups(r.value) == s
    decreases n
  {
    if n == 0 then (if |s| == 0 then Some([]) else None)
    else
      var k := SepSpan(s);
      if k + 2 <= |s| && Formatters.IsDigit(s[k]) && Formatters.IsDigit(s[k + 1]) then
        match ParseGroups(s[k + 2..], n - 1)
        case None => None
        case Some(rest) =>
          GroupInFront(s, n, rest);
          Some([Group(s[..k], s[k..k + 2])] + rest)
      else None
  }

  /** A separator run and two digits in front of `n - 1` parsed groups make `n` groups. */
  lemma GroupInFront(s: string, n: nat, rest: seq<Group>)
    requires SepSpan(s) + 2 <= |s| && n > 0
    requires Formatters.IsDigit(s[SepSpan(s)]) && Formatters.IsDigit(s[SepSpan(s) + 1])
    requires |rest| == n - 1 && (forall k :: 0 <= k < n - 1 ==> GroupOk(rest[k]))
    requires RenderGroups(rest) == s[SepSpan(s) + 2..]
    ensures var gs := [Group(s[..SepSpan(s)], s[SepSpan(s)..SepSpan(s) + 2])] + rest;
            |gs| == n && (forall k :: 0 <= k < n ==> GroupOk(gs[k])) && RenderGroups(gs) == s
  {
    var k := SepSpan(s);
    var g := Group(s[..k], s[k..k + 2]);
    var gs := [g] + rest;
    assert GroupOk(g);
    assert forall j :: 1 <= j < n ==> gs[j] == rest[j - 1];
    assert gs[1..] == rest;
    SplitAround(s, k);
  }

  lemma SplitAround(s: string, k: nat)
    requires k + 2 <= |s|
    ensures s == s[..k] + s[k..k + 2] + s[k + 2..]
  {
  }

  function ParseAfterPrefix(prefix: Prefix, s: string): (r: Option<PhoneParts>)
    ensures r.Some? ==> WellFormed(r.value) && r.value.prefix == prefix
                        && Render(r.value) == PrefixText(prefix) + s
  {
    var k := LeadingSpace(s);
    if k < |s| && '1' <= s[k] <= '9' then
      match ParseGroups(s[k + 1..], 4)
      case None => None
      case Some(gs) =>
        var p := PhoneParts(prefix, s[..k], s[k], gs);
        AfterPrefixParts(p, s);
        Some(p)
    else None
  }

  /** Parts read off the text after the prefix are well formed and spell it. */
  lemma AfterPrefixParts(p: PhoneParts, s: string)
    requires |p.spaces| == LeadingSpace(s) < |s| && p.spaces == s[..|p.spaces|]
    requires p.first == s[|p.spaces|] && '1' <= p.first <= '9'
    requires |p.groups| == 4 && (forall k :: 0 <= k < 4 ==> GroupOk(p.groups[k]))
    requires RenderGroups(p.groups) == s[|p.spaces| + 1..]
    ensures WellFormed(p) && Render(p) == PrefixText(p.prefix) + s
  {
    SpacesBefore(s);
    RenderSplit(p, s);
  }

  lemma SpacesBefore(s: string)
    ensures forall i :: 0 <= i < |s[..LeadingSpace(s)]| ==> IsJsSpace(s[..LeadingSpace(s)][i])
  {
  }

  lemma RenderSplit(p: PhoneParts, s: string)
    requires |p.spaces| < |s| && s[..|p.spaces|] == p.spaces && s[|p.spaces|] == p.first
    requires RenderGroups(p.groups) == s[|p.spaces| + 1..]
    ensures Render(p) == PrefixText(p.prefix) + s
  {
    var k := |p.spaces|;
    assert s == s[..k] + [s[k]] + s[k + 1..];
  }

  /** The pattern, read left to right; only one prefix alternative can lead
      to a match, so trying them in turn loses nothing. */
  function ParsePhone(s: string): (r: Option<PhoneParts>)
    ensures r.Some? ==> WellFormed(r.value) && Render(r.value) == s
  {
    if |s| >= 3 && s[..3] == "+33" then
      assert s == "+33" + s[3..];
      ParseAfterPrefix(Plus33, s[3..])
    else if |s| >= 4 && s[..4] == "0033" then
      assert s == "0033" + s[4..];
      ParseAfterPrefix(Zero033, s[4..])
    else if |s| >= 1 && s[0] == '0' then
      assert s == "0" + s[1..];
      ParseAfterPrefix(Zero, s[1..])
    else None
  }

  /** `phoneSchema`'s pattern test. */
  predicate IsPhone(s: string) {
    ParsePhone(s).Some?
  }

  /** The separator run of `sep + t` is `sep` when `t` does not start with a separator. */
  lemma SepSpanOf(sep: string, t: string)
    requires forall i :: 0 <= i < |sep| ==> IsGroupSep(sep[i])
    requires |t| == 0 || !IsGroupSep(t[0])
    ensures SepSpan(sep + t) == |sep|
  {
    var s := sep + t;
    assert forall i :: 0 <= i < |sep| ==> s[i] == sep[i];
    assert |t| > 0 ==> s[|sep|] == t[0];
  }

  /** Likewise for the white space before the first digit. */
  lemma LeadingSpaceOf(spaces: string, t: string)
    requires forall i :: 0 <= i < |spaces| ==> IsJsSpace(spaces[i])
    requires |t| == 0 || !IsJsSpace(t[0])
    ensures LeadingSpace(spaces + t) == |spaces|
  {
    var s := spaces + t;
    assert forall i :: 0 <= i < |spaces| ==> s[i] == spaces[i];
    assert |t| > 0 ==> s[|spaces|] == t[0];
  }

  lemma PiecesOf(sep: string, pair: string, tail: string)
    requires |pair| == 2
    ensures var s := sep + pair + tail;
            && s == sep + (pair + tail) && |s| >= |sep| + 2
            && s[..|sep|] == sep && s[|sep|..|sep| + 2] == pair && s[|sep| + 2..] == tail
  {
    var s := sep + pair + tail;
    assert s == sep + (pair + tail);
    assert s[..|sep|] == sep;
    assert s[|sep|..|sep| + 2] == pair;
    assert s[|sep| + 2..] == tail;
  }

  lemma {:induction false} ParseRenderGroups(gs: seq<Group>)
    requires forall k :: 0 <= k < |gs| ==> GroupOk(gs[k])
    ensures ParseGroups(RenderGroups(gs), |gs|) == Some(gs)
    decreases |gs|
  {
    if |gs| > 0 {
      var g := gs[0];
      var tail := RenderGroups(gs[1..]);
      PiecesOf(g.sep, g.pair, tail);
      SepSpanOf(g.sep, g.pair + tail);
      ParseRenderGroups(gs[1..]);
      assert [Group(g.sep, g.pair)] + gs[1..] == gs;
    }
  }

  lemma ParseRenderAfterPrefix(p: PhoneParts)
    requires WellFormed(p)
    ensures ParseAfterPrefix(p.prefix, p.spaces + [p.first] + RenderGroups(p.groups)) == Some(p)
  {
    var s := p.spaces + [p.first] + RenderGroups(p.groups);
    var k := |p.spaces|;
    assert s == p.spaces + ([p.first] + RenderGroups(p.groups));
    LeadingSpaceOf(p.spaces, [p.first] + RenderGroups(p.groups));
    assert s[k] == p.first;
    assert s[k + 1..] == RenderGroups(p.groups);
    assert s[..k] == p.spaces;
    ParseRenderGroups(p.groups);
  }

  /** Every number the pattern describes is recognised, and reading it back
      gives the same parts: the recogniser and the pattern agree both ways. */
  lemma ParseRenderPhone(p: PhoneParts)
    requires WellFormed(p)
    ensures ParsePhone(Render(p)) == Some(p)
    ensures IsPhone(Render(p))
  {
    var rest := p.spaces + [p.first] + RenderGroups(p.groups);
    assert Render(p) == PrefixText(p.prefix) + rest;
    assert |rest| > 0 && rest[0] != '0' by {
      if |p.spaces| > 0 {
        assert rest[0] == p.spaces[0];
        assert IsJsSpace(p.spaces[0]);
      } else {
        assert rest[0] == p.first;
      }
    }
    ParseRenderAfterPrefix(p);
    ParsePhoneDispatch(p.prefix, rest);
  }

  /** The prefix of a rendered number selects its own alternative. */
  lemma ParsePhoneDispatch(prefix: Prefix, rest: string)
    requires |rest| > 0 && rest[0] != '0'
    ensures ParsePhone(PrefixText(prefix) + rest) == ParseAfterPrefix(prefix, rest)
  {
    var s := PrefixText(prefix) + rest;
    match prefix
    case Plus33 =>
      assert s[..3] == "+33" && s[3..] == rest;
    case Zero033 =>
      assert s[..3] != "+33" by {
        assert s[..3][0] == '0';
      }
      assert s[..4] == "0033" && s[4..] == rest;
    case Zero =>
      assert s[0] == '0' && s[1..] == rest;
      assert !(|s| >= 3 && s[..3] == "+33") by {
        if |s| >= 3 {
          assert s[..3][0] == '0';
        }
      }
      assert !(|s| >= 4 && s[..4] == "0033") by {
        if |s| >= 4 {
          assert s[..4][1] == rest[0];
        }
      }
  }

  /** A zero straight after the trunk prefix is refused. */
  lemma RejectsZeroAfterPrefix()
    ensures !IsPhone("0012345678")
  {
    var s := "0012345678";
    assert s[0] == '0' && s[2] == '1';
    assert s[..3] != "+33" by {
      assert s[..3][0] == '0';
    }
    assert s[..4] != "0033" by {
      assert s[..4][2] == '1';
    }
    assert s[1..] == "012345678";
    assert LeadingSpace("012345678") == 0;
  }

  /** Four digit pairs, each after the separator `sep`. */
  lemma PairGroups(sep: char, gs: seq<Group>)
    requires gs == [Group([sep], "12"), Group([sep], "34"), Group([sep], "56"), Group([sep], "78")]
    ensures RenderGroups(gs) == [sep, '1', '2', sep, '3', '4', sep, '5', '6', sep, '7', '8']
  {
    assert RenderGroups(gs[3..]) == [sep, '7', '8'];
    assert RenderGroups(gs[2..]) == [sep, '5', '6', sep, '7', '8'];
    assert RenderGroups(gs[1..]) == [sep, '3', '4', sep, '5', '6', sep, '7', '8'];
  }

  /** The spaced national form is accepted. */
  lemma AcceptsSpacedNational()
    ensures IsPhone("06 12 34 56 78")
  {
    var gs := [Group(" ", "12"), Group(" ", "34"), Group(" ", "56"), Group(" ", "78")];
    PairGroups(' ', gs);
    var p := PhoneParts(Zero, "", '6', gs);
    assert Render(p) == "06 12 34 56 78";
    ParseRenderPhone(p);
  }

  /** The dotted international form is accepted. */
  lemma AcceptsDottedInternational()
    ensures IsPhone("+33 6.12.34.56.78")
  {
    var gs := [Group(".", "12"), Group(".", "34"), Group(".", "56"), Group(".", "78")];
    PairGroups('.', gs);
    var p := PhoneParts(Plus33, " ", '6', gs);
    assert Render(p) == "+33 6.12.34.56.78";
    ParseRenderPhone(p);
  }

  // ---------------------------------------------------------------------------
  // Schemas and `validate`

  /** What a schema's `safeParse` reports: the parsed data, or its issues in order. */
  datatype ParseOutcome<T> = Parsed(data: T) | Issues(messages: seq<string>)

  /** The result of `validate`. */
  datatype Validation<T> = Valid(data: T) | Invalid(errors: seq<string>)

  /** `validate`: success carries the parsed data; a failure lists one
      message per issue, in the order the schema reported them. */
  function Validate<T>(outcome: ParseOutcome<T>): (r: Validation<T>)
    ensures r.Valid? <==> outcome.Parsed?
    ensures r.Valid? ==> r.data == outcome.data
    ensures r.Invalid? ==> |r.errors| == |outcome.messages|
                           && forall i :: 0 <= i < |r.errors| ==> r.errors[i] == outcome.messages[i]
  {
    match outcome
    case Parsed(data) => Valid(data)
    case Issues(messages) => Invalid(seq(|messages|, i requires 0 <= i < |messages| => messages[i]))
  }

  const PostalCodeMessage := "Code postal invalide"
  const PhoneMessage := "Numero de telephone invalide"

  /** `postalCodeSchema.safeParse` on a string. */
  function PostalCodeSchema(s: string): ParseOutcome<string> {
    if IsPostalCode(s) then Parsed(s) else Issues([PostalCodeMessage])
  }

  /** `phoneSchema.safeParse` on a string. */
  function PhoneSchema(s: string): ParseOutcome<string> {
    if IsPhone(s) then Parsed(s) else Issues([PhoneMessage])
  }

  /** Validating a postal code keeps a five-digit string as it is and
      otherwise reports the schema's single message. */
  lemma ValidatePostalCode(s: string)
    ensures Validate(PostalCodeSchema(s)) == if |s| == 5 && forall i :: 0 <= i < 5 ==> Formatters.IsDigit(s[i])
                                             then Valid(s) else Invalid([PostalCodeMessage])
  {
  }

  /** Validating a phone number accepts exactly the rendered parts. */
  lemma ValidatePhone(s: string)
    ensures Validate(PhoneSchema(s)).Valid? <==> exists p :: WellFormed(p) && Render(p) == s
    ensures Validate(PhoneSchema(s)).Invalid? ==> Validate(PhoneSchema(s)).errors == [PhoneMessage]
  {
    if exists p :: WellFormed(p) && Render(p) == s {
      var p :| WellFormed(p) && Render(p) == s;
      ParseRenderPhone(p);
    }
    if IsPhone(s) {
      var p := ParsePhone(s).value;
      assert WellFormed(p) && Render(p) == s;
    }
  }
}
