/** Kubernetes-style storage sizes, "<integer>Gi". */
module StorageSize {
  import opened Common
  import opened Digits

  predicate IsSpace(c: char) { c in {' ', '\t', '\n', '\r', '\U{0B}', '\U{0C}'} }

  /** Digits, with single underscores allowed between them. */
  function ParseDigits(s: string): Option<nat> {
    if s == [] then None
    else
      var last := s[|s| - 1];
      if !IsDigit(last) then None
      else if |s| == 1 then Some(DigitValue(last))
      else
        var head := ParseDigits(WithoutSeparator(s[..|s| - 1]));
        if head.None? then None else Some(10 * head.value + DigitValue(last))
  }

  /** Drops one underscore at the end, if there is one. */
  function WithoutSeparator(s: string): (r: string)
    requires s != []
    ensures |r| <= |s|
  {
    if s[|s| - 1] == '_' then s[..|s| - 1] else s
  }

  function Strip(s: string): string {
    if s != [] && IsSpace(s[0]) then Strip(s[1..])
    else if s != [] && IsSpace(s[|s| - 1]) then Strip(s[..|s| - 1])
    else s
  }

  /** At most one sign, then digits. */
  function ParseSigned(s: string): Option<int> {
    if s != [] && s[0] in {'+', '-'} then Signed(s[0] == '-', ParseDigits(s[1..]))
    else Signed(false, ParseDigits(s))
  }

  function Signed(negative: bool, magnitude: Option<nat>): Option<int> {
    match magnitude
    case None => None
    case Some(n) => var value: int := n; Some(if negative then -value else value)
  }

  /** Python's int() on text: surrounding blanks are accepted. */
  function ParseInt(text: string): Option<int> { ParseSigned(Strip(text)) }

  /** None is the bad-request error. */
  function ParseStorageSizeGib(text: string): Option<int> {
    if |text| >= 2 && text[|text| - 2..] == "Gi" then ParseInt(text[..|text| - 2]) else None
  }

  // ---------------------------------------------------------------- the accepted grammar

  /** Digits with single underscores strictly between them. */
  ghost predicate Grouped(s: string) {
    && s != [] && IsDigit(s[0]) && IsDigit(s[|s| - 1])
    && (forall i :: 0 <= i < |s| ==> IsDigit(s[i]) || s[i] == '_')
    && (forall i :: 0 < i < |s| ==> IsDigit(s[i - 1]) || IsDigit(s[i]))
  }

  predicate Blank(s: string) { forall i :: 0 <= i < |s| ==> IsSpace(s[i]) }

  datatype Sign = NoSign | Plus | Minus
  {
    function Text(): string {
      match this
      case NoSign => ""
      case Plus => "+"
      case Minus => "-"
    }
  }

  /** One way to write a size: blanks, at most one sign, grouped digits, blanks, then the unit. */
  datatype Spelling = Spelling(before: string, sign: Sign, digits: string, after: string)
  {
    ghost predicate Valid() {
      Blank(before) && Grouped(digits) && Blank(after)
    }

    function Text(): string { before + (sign.Text() + digits) + after + "Gi" }

    function Value(): int {
      var magnitude: int := ToNat(digits);
      if sign == Minus then -magnitude else magnitude
    }
  }

  /** Taking off the last digit and the separator before it. */
  lemma GroupedStep(s: string)
    requires |s| > 1
    ensures Grouped(s) <==> IsDigit(s[|s| - 1]) && Grouped(WithoutSeparator(s[..|s| - 1]))
  {
    var front := s[..|s| - 1];
    var rest := WithoutSeparator(front);
    assert forall i :: 0 <= i < |rest| ==> rest[i] == s[i];
    assert front[|front| - 1] == s[|s| - 2];
    if Grouped(s) {
      assert IsDigit(s[|s| - 2]) || IsDigit(s[|s| - 1]);
      if s[|s| - 2] == '_' {
        assert IsDigit(s[|s| - 3]);
      }
    }
    if IsDigit(s[|s| - 1]) && Grouped(rest) {
      forall i | 0 < i < |s|
        ensures IsDigit(s[i - 1]) || IsDigit(s[i])
      {
        if i < |rest| {
          assert IsDigit(rest[i - 1]) || IsDigit(rest[i]);
        }
      }
    }
  }

  lemma {:induction false} DigitsGrammar(s: string)
    ensures ParseDigits(s) == if Grouped(s) then Some(ToNat(s)) else None
    decreases |s|
  {
    if s == [] {
    } else if |s| == 1 {
      assert s[..0] == [] && ToNat([]) == 0;
    } else {
      var rest := WithoutSeparator(s[..|s| - 1]);
      DigitsGrammar(rest);
      GroupedStep(s);
      SeparatorSpellsNothing(s[..|s| - 1]);
    }
  }

  lemma {:induction false} SeparatorSpellsNothing(s: string)
    requires s != []
    ensures ToNat(WithoutSeparator(s)) == ToNat(s)
  {
  }

  /** Stripping takes blanks off both ends and nothing else. */
  lemma {:induction false} StripSplits(s: string) returns (before: string, after: string)
    ensures Blank(before) && Blank(after) && s == before + Strip(s) + after
    decreases |s|
  {
    if s != [] && IsSpace(s[0]) {
      before, after := StripSplits(s[1..]);
      before := [s[0]] + before;
    } else if s != [] && IsSpace(s[|s| - 1]) {
      before, after := StripSplits(s[..|s| - 1]);
      after := after + [s[|s| - 1]];
    } else {
      before, after := [], [];
    }
  }

  lemma {:induction false} StripPadded(before: string, s: string, after: string)
    requires Blank(before) && Blank(after) && s != [] && !IsSpace(s[0]) && !IsSpace(s[|s| - 1])
    ensures Strip(before + s + after) == s
    decreases |before| + |after|
  {
    var all := before + s + after;
    if before != [] {
      assert all[0] == before[0] && all[1..] == before[1..] + s + after;
      StripPadded(before[1..], s, after);
    } else if after != [] {
      assert all[0] == s[0] && all[|all| - 1] == after[|after| - 1];
      assert all[..|all| - 1] == before + s + after[..|after| - 1];
      StripPadded(before, s, after[..|after| - 1]);
    } else {
      assert all == s;
    }
  }

  /** A sign and grouped digits, and what they parse to. */
  lemma {:induction false} SignedDigitsParse(sign: Sign, digits: string)
    requires Grouped(digits)
    ensures ParseSigned(sign.Text() + digits) == Signed(sign == Minus, ParseDigits(digits))
  {
    var s := sign.Text() + digits;
    if sign == NoSign {
      assert s == digits;
    } else {
      assert s[1..] == digits;
    }
  }

  lemma ParsedIsSigned(s: string) returns (sign: Sign, digits: string)
    requires ParseSigned(s).Some?
    ensures Grouped(digits) && s == sign.Text() + digits
  {
    if s != [] && s[0] in {'+', '-'} {
      sign, digits := if s[0] == '-' then Minus else Plus, s[1..];
    } else {
      sign, digits := NoSign, s;
    }
    DigitsGrammar(digits);
  }

  lemma SpelledParses(p: Spelling)
    requires p.Valid()
    ensures ParseStorageSizeGib(p.Text()) == Some(p.Value())
  {
    var s := p.sign.Text() + p.digits;
    var text := p.Text();
    assert text[|text| - 2..] == "Gi" && text[..|text| - 2] == p.before + s + p.after;
    assert !IsSpace(s[0]) && s[|s| - 1] == p.digits[|p.digits| - 1];
    StripPadded(p.before, s, p.after);
    SignedDigitsParse(p.sign, p.digits);
    DigitsGrammar(p.digits);
  }

  lemma ParsedIsSpelled(text: string) returns (p: Spelling)
    requires ParseStorageSizeGib(text).Some?
    ensures p.Valid() && p.Text() == text
  {
    var core := text[..|text| - 2];
    var before, after := StripSplits(core);
    var sign, digits := ParsedIsSigned(Strip(core));
    p := Spelling(before, sign, digits, after);
    assert text == core + "Gi";
  }

  /** The parser accepts exactly the spellings of the grammar, and gives each its value. */
  lemma ParsesIffSpelled(text: string, n: int)
    ensures ParseStorageSizeGib(text) == Some(n) <==>
      exists p: Spelling :: p.Valid() && p.Text() == text && p.Value() == n
  {
    if ParseStorageSizeGib(text) == Some(n) {
      var p := ParsedIsSpelled(text);
      SpelledParses(p);
    }
    forall p: Spelling | p.Valid() && p.Text() == text && p.Value() == n
      ensures ParseStorageSizeGib(text) == Some(n)
    {
      SpelledParses(p);
    }
  }

  /** Every size written as a whole number of Gi is read back as that number. */
  lemma {:induction false} SizeRoundTrip(n: nat)
    ensures ParseStorageSizeGib(Decimal(n) + "Gi") == Some(n)
  {
    var p := Spelling("", NoSign, Decimal(n), "");
    assert Grouped(Decimal(n));
    DecimalRoundTrip(n);
    assert p.Text() == Decimal(n) + "Gi";
    SpelledParses(p);
  }
}
