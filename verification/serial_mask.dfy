/**
  The serial-number mask of an equipment type: the compiler that turns a mask into a
  regular expression (`EquipmentType.get_regex_pattern`) and the validator that applies it
  with `re.match` (`EquipmentType.validate_serial_number`).

  A compiled pattern is modelled twice: abstractly, as the sequence of character classes
  it is built from, and concretely, as the text of the regular expression. `Render` maps
  the first to the second and is injective, so the text determines the classes.
*/
module SerialMask {

  /** One unit of a compiled pattern: the set of characters one serial position accepts. */
  datatype CharClass =
    | Digit            // mask 'N', pattern [0-9]
    | Upper            // mask 'A', pattern [A-Z]
    | Lower            // mask 'a', pattern [a-z]
    | UpperOrDigit     // mask 'X', pattern [A-Z0-9]
    | Special          // mask 'Z', pattern [-_@]
    | Literal(c: char) // any other mask character, escaped

  predicate IsDigit(c: char) { '0' <= c <= '9' }
  predicate IsUpper(c: char) { 'A' <= c <= 'Z' }
  predicate IsLower(c: char) { 'a' <= c <= 'z' }
  predicate IsSpecial(c: char) { c == '-' || c == '_' || c == '@' }

  /** True when the mask character has a class of its own rather than standing for itself. */
  predicate IsClassChar(m: char) { m == 'N' || m == 'A' || m == 'a' || m == 'X' || m == 'Z' }

  /** Membership of a character in a class, as the regex engine decides it (case-sensitive). */
  predicate InClass(c: char, k: CharClass)
  {
    match k
    case Digit => IsDigit(c)
    case Upper => IsUpper(c)
    case Lower => IsLower(c)
    case UpperOrDigit => IsUpper(c) || IsDigit(c)
    case Special => IsSpecial(c)
    case Literal(l) => c == l
  }

  /** The class one mask character compiles to. */
  function ClassOf(m: char): CharClass
  {
    if m == 'N' then Digit
    else if m == 'A' then Upper
    else if m == 'a' then Lower
    else if m == 'X' then UpperOrDigit
    else if m == 'Z' then Special
    else Literal(m)
  }

  /** The abstract pattern of a mask: one class per mask character, in order. */
  function Compile(mask: string): seq<CharClass>
  {
    seq(|mask|, i requires 0 <= i < |mask| => ClassOf(mask[i]))
  }

  // ---------------------------------------------------------------------------
  // The pattern as text
  // ---------------------------------------------------------------------------

  /**
    The characters Python's `re.escape` prefixes with a backslash (the set used since
    Python 3.7): ()[]{}?*+-|^$\.&~# and the whitespace characters space, \t, \n, \r, \v, \f.
  */
  predicate IsRegexSpecial(c: char)
  {
    || c == '(' || c == ')' || c == '[' || c == ']' || c == '{' || c == '}'
    || c == '?' || c == '*' || c == '+' || c == '-' || c == '|' || c == '^'
    || c == '$' || c == '\\' || c == '.' || c == '&' || c == '~' || c == '#'
    || c == ' ' || c == '\t' || c == '\n' || c == '\r' || c == '\U{B}' || c == '\U{C}'
  }

  /** `re.escape` of a single character. */
  function Escape(c: char): (r: string)
    ensures r == [c] || r == ['\\', c]
    ensures r[|r| - 1] == c
  {
    if IsRegexSpecial(c) then ['\\', c] else [c]
  }

  /** The regex text of one pattern unit. */
  function UnitText(k: CharClass): string
  {
    match k
    case Digit => "[0-9]"
    case Upper => "[A-Z]"
    case Lower => "[a-z]"
    case UpperOrDigit => "[A-Z0-9]"
    case Special => "[-_@]"
    case Literal(l) => Escape(l)
  }

  /** The regex text of a sequence of units, without the anchors. */
  function Render(p: seq<CharClass>): string
  {
    if p == [] then "" else UnitText(p[0]) + Render(p[1..])
  }

  /** The anchored pattern text `get_regex_pattern` returns for a mask. */
  function PatternText(mask: string): string
  {
    "^" + Render(Compile(mask)) + "$"
  }

  lemma {:induction false} RenderAppend(p: seq<CharClass>, k: CharClass)
    ensures Render(p + [k]) == Render(p) + UnitText(k)
  {
    if p == [] {
      assert p + [k] == [k];
    } else {
      assert (p + [k])[1..] == p[1..] + [k];
      RenderAppend(p[1..], k);
    }
  }

  lemma CompileSnoc(mask: string, i: nat)
    requires i < |mask|
    ensures Compile(mask[..i + 1]) == Compile(mask[..i]) + [ClassOf(mask[i])]
  {
  }

  /**
    `get_regex_pattern`: appends the text of one unit per mask character to an
    accumulator, then wraps the result in the anchors `^` and `$`.
  */
  method GetRegexPattern(mask: string) returns (pattern: string)
    ensures pattern == PatternText(mask)
    ensures pattern[0] == '^' && pattern[|pattern| - 1] == '$'
  {
    var body := "";
    var i := 0;
    while i < |mask|
      invariant 0 <= i <= |mask|
      invariant body == Render(Compile(mask[..i]))
    {
      CompileSnoc(mask, i);
      RenderAppend(Compile(mask[..i]), ClassOf(mask[i]));
      body := body + UnitText(ClassOf(mask[i]));
      i := i + 1;
    }
    assert mask[..i] == mask;
    pattern := "^" + body + "$";
  }

  /**
    Reads back the unit whose text starts a string. Class units begin with '[', escaped
    literals with a backslash, and no other unit begins with either character.
  */
  function FirstUnit(s: string): CharClass
  {
    if |s| == 0 then Literal(' ')
    else if s[0] == '\\' && |s| >= 2 then Literal(s[1])
    else if s[0] == '[' && |s| >= 2 then
      if s[1] == '0' then Digit
      else if s[1] == 'a' then Lower
      else if s[1] == '-' then Special
      else if |s| >= 5 && s[4] == '0' then UpperOrDigit
      else Upper
    else Literal(s[0])
  }

  /** Unit texts form a prefix code: the text of a unit, followed by anything, decodes to that unit. */
  lemma FirstUnitDecodes(k: CharClass, r: string)
    ensures FirstUnit(UnitText(k) + r) == k
  {
    var s := UnitText(k) + r;
    match k
    case Literal(l) =>
      if IsRegexSpecial(l) {
        assert s[0] == '\\' && s[1] == l;
      } else {
        assert s[0] == l && l != '\\' && l != '[';
      }
    case Upper =>
      assert s[0] == '[' && s[1] == 'A' && s[4] == ']';
    case UpperOrDigit =>
      assert s[0] == '[' && s[1] == 'A' && s[4] == '0';
    case _ =>
      assert s[0] == '[' && s[1] == UnitText(k)[1];
  }

  lemma UnitTextPrefixFree(j: CharClass, k: CharClass, r1: string, r2: string)
    requires UnitText(j) + r1 == UnitText(k) + r2
    ensures j == k && r1 == r2
  {
    FirstUnitDecodes(j, r1);
    FirstUnitDecodes(k, r2);
    assert r1 == (UnitText(j) + r1)[|UnitText(j)|..];
    assert r2 == (UnitText(k) + r2)[|UnitText(k)|..];
  }

  lemma RenderEmpty(p: seq<CharClass>)
    ensures Render(p) == "" <==> p == []
  {
    if p != [] {
      assert |Render(p)| >= |UnitText(p[0])| > 0;
    }
  }

  /** The pattern text determines the unit sequence it was rendered from. */
  lemma {:induction false} RenderInjective(p: seq<CharClass>, q: seq<CharClass>)
    requires Render(p) == Render(q)
    ensures p == q
  {
    RenderEmpty(p);
    RenderEmpty(q);
    if p != [] && q != [] {
      UnitTextPrefixFree(p[0], q[0], Render(p[1..]), Render(q[1..]));
      RenderInjective(p[1..], q[1..]);
      assert p == [p[0]] + p[1..];
      assert q == [q[0]] + q[1..];
    }
  }

  /** Two masks compile to the same pattern text exactly when they compile to the same classes. */
  lemma PatternTextDeterminesClasses(m1: string, m2: string)
    ensures PatternText(m1) == PatternText(m2) <==> Compile(m1) == Compile(m2)
  {
    if PatternText(m1) == PatternText(m2) {
      var r1, r2 := Render(Compile(m1)), Render(Compile(m2));
      assert r1 == PatternText(m1)[1..|PatternText(m1)| - 1];
      assert r2 == PatternText(m2)[1..|PatternText(m2)| - 1];
      RenderInjective(Compile(m1), Compile(m2));
    }
  }

  // ---------------------------------------------------------------------------
  // Matching
  // ---------------------------------------------------------------------------

  /**
    What `re.match('^' + Render(p) + '$', s)` decides. The pattern has no repetition or
    alternation, so it consumes exactly |p| characters, each in its class; Python's `$` then
    succeeds at the end of the string or just before a single trailing newline.
  */
  predicate PyMatch(p: seq<CharClass>, s: string)
  {
    && (|s| == |p| || (|s| == |p| + 1 && s[|p|] == '\n'))
    && forall i :: 0 <= i < |p| ==> InClass(s[i], p[i])
  }

  /** `validate_serial_number`: the serial matches the compiled mask. */
  predicate ValidateSerialNumber(mask: string, s: string)
    ensures ValidateSerialNumber(mask, s) ==> |mask| <= |s| <= |mask| + 1
  {
    PyMatch(Compile(mask), s)
  }

  /** Position-by-position reading of a mask, without any regex. */
  predicate FitsMask(mask: string, s: string)
  {
    |s| == |mask| && forall i :: 0 <= i < |mask| ==> InClass(s[i], ClassOf(mask[i]))
  }

  /**
    Unless the serial is one character longer than the mask and ends in a newline,
    validation holds exactly when the lengths agree and every position lies in its class;
    too-short and too-long serials both fail.
  */
  lemma ValidateIffFits(mask: string, s: string)
    requires !(|s| == |mask| + 1 && s[|mask|] == '\n')
    ensures ValidateSerialNumber(mask, s) <==> FitsMask(mask, s)
  {
  }

  /** The `$` quirk: a serial that fits the mask still validates with one newline appended. */
  lemma TrailingNewlineAccepted(mask: string, s: string)
    requires FitsMask(mask, s)
    ensures ValidateSerialNumber(mask, s + "\n")
    ensures !FitsMask(mask, s + "\n")
  {
    var t := s + "\n";
    assert forall i :: 0 <= i < |mask| ==> t[i] == s[i];
  }

  /** Any other length, and any extra character other than a newline, fails. */
  lemma WrongLengthRejected(mask: string, s: string)
    requires |s| != |mask| && !(|s| == |mask| + 1 && s[|mask|] == '\n')
    ensures !ValidateSerialNumber(mask, s)
  {
  }

  /** A serial that validates is the serial that fits, perhaps followed by one newline. */
  lemma ValidatedIsFitPlusOptionalNewline(mask: string, s: string)
    requires ValidateSerialNumber(mask, s)
    ensures FitsMask(mask, s) || (FitsMask(mask, s[..|mask|]) && s == s[..|mask|] + "\n")
  {
    if |s| != |mask| {
      assert s == s[..|mask|] + "\n";
    }
  }

  /** Case sensitivity: 'A' rejects lower case, 'a' rejects upper case, 'Z' takes only -, _ or @. */
  lemma ClassesAreCaseSensitive(mask: string, s: string, i: nat)
    requires ValidateSerialNumber(mask, s) && i < |mask|
    ensures mask[i] == 'A' ==> IsUpper(s[i]) && !IsLower(s[i])
    ensures mask[i] == 'a' ==> IsLower(s[i]) && !IsUpper(s[i])
    ensures mask[i] == 'N' ==> IsDigit(s[i])
    ensures mask[i] == 'X' ==> !IsLower(s[i])
    ensures mask[i] == 'Z' ==> s[i] in {'-', '_', '@'}
  {
    assert InClass(s[i], Compile(mask)[i]);
  }

  /** A literal mask character, regex-special or not, matches only itself. */
  lemma LiteralMatchesOnlyItself(mask: string, s: string, i: nat)
    requires ValidateSerialNumber(mask, s) && i < |mask| && !IsClassChar(mask[i])
    ensures s[i] == mask[i]
  {
    assert InClass(s[i], Compile(mask)[i]);
  }

  /** Rendering a unit in front of a pattern puts its text in front. */
  lemma RenderCons(k: CharClass, p: seq<CharClass>)
    ensures Render([k] + p) == UnitText(k) + Render(p)
  {
    assert ([k] + p)[1..] == p;
  }

  /** One step of rendering a concrete pattern: the unit's text goes in front of the known rest. */
  lemma RenderStep(k: CharClass, p: seq<CharClass>, rest: string, whole: string)
    requires Render(p) == rest && UnitText(k) + rest == whole
    ensures Render([k] + p) == whole
  {
    RenderCons(k, p);
  }

  /** Anchoring a rendered pattern gives the pattern text of the mask. */
  lemma AnchorStep(mask: string, body: string, whole: string)
    requires Render(Compile(mask)) == body && "^" + body + "$" == whole
    ensures PatternText(mask) == whole
  {
  }

  /** The compiled patterns of the repository's tests (test_models.py). */
  lemma PatternTextDigits()
    ensures PatternText("NNN") == "^[0-9][0-9][0-9]$"
  {
    assert Compile("NNN") == [Digit] + ([Digit] + [Digit]);
    RenderStep(Digit, [], "", "[0-9]");
    RenderStep(Digit, [Digit], "[0-9]", "[0-9][0-9]");
    RenderStep(Digit, [Digit] + [Digit], "[0-9][0-9]", "[0-9][0-9][0-9]");
    AnchorStep("NNN", "[0-9][0-9][0-9]", "^[0-9][0-9][0-9]$");
  }

  lemma PatternTextMixed()
    ensures PatternText("NXAaZ") == "^[0-9][A-Z0-9][A-Z][a-z][-_@]$"
  {
    var p := [Digit, UpperOrDigit, Upper, Lower, Special];
    CompileExample("NXAaZ", p);
    RenderMixedExample(p);
    AnchorStep("NXAaZ", "[0-9][A-Z0-9][A-Z][a-z][-_@]", "^[0-9][A-Z0-9][A-Z][a-z][-_@]$");
  }

  /** A mask compiles to the given classes when each character's class is the one listed. */
  lemma CompileExample(mask: string, p: seq<CharClass>)
    requires |mask| == |p| && forall i :: 0 <= i < |mask| ==> ClassOf(mask[i]) == p[i]
    ensures Compile(mask) == p
  {
  }

  lemma RenderMixedExample(p: seq<CharClass>)
    requires p == [Digit, UpperOrDigit, Upper, Lower, Special]
    ensures Render(p) == "[0-9][A-Z0-9][A-Z][a-z][-_@]"
  {
    RenderMixedTail();
    RenderStep(UpperOrDigit, [Upper, Lower, Special], "[A-Z][a-z][-_@]", "[A-Z0-9][A-Z][a-z][-_@]");
    RenderStep(Digit, [UpperOrDigit, Upper, Lower, Special], "[A-Z0-9][A-Z][a-z][-_@]", "[0-9][A-Z0-9][A-Z][a-z][-_@]");
    assert p == [Digit] + [UpperOrDigit, Upper, Lower, Special];
    assert [UpperOrDigit] + [Upper, Lower, Special] == [UpperOrDigit, Upper, Lower, Special];
  }

  lemma RenderMixedTail()
    ensures Render([Upper, Lower, Special]) == "[A-Z][a-z][-_@]"
  {
    RenderStep(Special, [], "", "[-_@]");
    RenderStep(Lower, [Special], "[-_@]", "[a-z][-_@]");
    RenderStep(Upper, [Lower, Special], "[a-z][-_@]", "[A-Z][a-z][-_@]");
    assert [Lower] + [Special] == [Lower, Special];
    assert [Upper] + [Lower, Special] == [Upper, Lower, Special];
  }

  lemma PatternTextLiterals()
    ensures PatternText("AA-BB.CC") == "^[A-Z][A-Z]\\-BB\\.CC$"
  {
    var tail := [Literal('-'), Literal('B'), Literal('B'), Literal('.'), Literal('C'), Literal('C')];
    CompileExample("AA-BB.CC", [Upper, Upper] + tail);
    RenderLiteralsExample(tail);
    AnchorStep("AA-BB.CC", "[A-Z][A-Z]\\-BB\\.CC", "^[A-Z][A-Z]\\-BB\\.CC$");
  }

  lemma RenderLiteralsExample(tail: seq<CharClass>)
    requires tail == [Literal('-'), Literal('B'), Literal('B'), Literal('.'), Literal('C'), Literal('C')]
    ensures Render([Upper, Upper] + tail) == "[A-Z][A-Z]\\-BB\\.CC"
  {
    RenderLiteralsTail(tail);
    RenderStep(Upper, tail, "\\-BB\\.CC", "[A-Z]\\-BB\\.CC");
    RenderStep(Upper, [Upper] + tail, "[A-Z]\\-BB\\.CC", "[A-Z][A-Z]\\-BB\\.CC");
    assert [Upper, Upper] + tail == [Upper] + ([Upper] + tail);
  }

  lemma RenderLiteralsTail(p: seq<CharClass>)
    requires p == [Literal('-'), Literal('B'), Literal('B'), Literal('.'), Literal('C'), Literal('C')]
    ensures Render(p) == "\\-BB\\.CC"
  {
    RenderLiteralsLast(p[3..]);
    assert Escape('B') == "B" && Escape('-') == "\\-";
    RenderStep(Literal('B'), p[3..], "\\.CC", "B\\.CC");
    RenderStep(Literal('B'), p[2..], "B\\.CC", "BB\\.CC");
    RenderStep(Literal('-'), p[1..], "BB\\.CC", "\\-BB\\.CC");
    assert p[2..] == [Literal('B')] + p[3..];
    assert p[1..] == [Literal('B')] + p[2..];
    assert p == [Literal('-')] + p[1..];
  }

  lemma RenderLiteralsLast(p: seq<CharClass>)
    requires p == [Literal('.'), Literal('C'), Literal('C')]
    ensures Render(p) == "\\.CC"
  {
    assert Escape('C') == "C" && Escape('.') == "\\.";
    RenderStep(Literal('C'), [], "", "C");
    RenderStep(Literal('C'), [Literal('C')], "C", "CC");
    RenderStep(Literal('.'), [Literal('C')] + [Literal('C')], "CC", "\\.CC");
    assert p == [Literal('.')] + ([Literal('C')] + [Literal('C')]);
  }

  /** The class sequence of the mask `XXAAAAAXAA` used by the validation tests. */
  lemma CompileRouterMask()
    ensures Compile("XXAAAAAXAA") == [UpperOrDigit, UpperOrDigit, Upper, Upper, Upper, Upper, Upper, UpperOrDigit, Upper, Upper]
  {
    CompileExample("XXAAAAAXAA", [UpperOrDigit, UpperOrDigit, Upper, Upper, Upper, Upper, Upper, UpperOrDigit, Upper, Upper]);
  }

  /** test_validate_serial_number_valid: every listed serial passes the mask `XXAAAAAXAA`. */
  lemma ValidSerialExamples()
    ensures ValidateSerialNumber("XXAAAAAXAA", "1ABCDEF2GH")
    ensures ValidateSerialNumber("XXAAAAAXAA", "AABCDEF1IJ")
    ensures ValidateSerialNumber("XXAAAAAXAA", "9ZYXWVU8KL")
  {
    CompileRouterMask();
  }

  /**
    test_validate_serial_number_invalid: every listed serial fails the mask `XXAAAAAXAA`,
    for a lower-case letter at an `X` or `A` position, or for its length.
  */
  lemma InvalidSerialExamples()
    ensures !ValidateSerialNumber("XXAAAAAXAA", "aaBCDEF2GH")
    ensures !ValidateSerialNumber("XXAAAAAXAA", "1ABCDEF2g")
    ensures !ValidateSerialNumber("XXAAAAAXAA", "1ABCDEF2")
    ensures !ValidateSerialNumber("XXAAAAAXAA", "1ABCDEF2GHI")
    ensures !ValidateSerialNumber("XXAAAAAXAA", "1abcdef2GH")
  {
    CompileRouterMask();
    var x := Compile("XXAAAAAXAA");
    assert !InClass("aaBCDEF2GH"[0], x[0]);
    assert !InClass("1abcdef2GH"[1], x[1]);
    assert "1ABCDEF2GHI"[10] != '\n';
  }

  /**
    test_validate_serial_number_with_special_chars: a `Z` position takes `-`, `_` and `@`
    and refuses `#`, `*` and a space.
  */
  lemma SpecialCharExamples()
    ensures ValidateSerialNumber("AAZAA", "AA-AA")
    ensures ValidateSerialNumber("AAZAA", "AA_AA")
    ensures ValidateSerialNumber("AAZAA", "AA@AA")
    ensures !ValidateSerialNumber("AAZAA", "AA#AA")
    ensures !ValidateSerialNumber("AAZAA", "AA*AA")
    ensures !ValidateSerialNumber("AAZAA", "AA AA")
  {
    CompileExample("AAZAA", [Upper, Upper, Special, Upper, Upper]);
    var z := Compile("AAZAA");
    assert !InClass("AA#AA"[2], z[2]);
    assert !InClass("AA*AA"[2], z[2]);
    assert !InClass("AA AA"[2], z[2]);
  }
}
