/**
 The address check `isValidEmail`, which tests `/^[^\s@]+@[^\s@]+\.[^\s@]+$/`.
 The pattern is modelled as a list of tokens matched with the backtracking
 semantics of a regular expression, and the match is proved equal to a plain
 structural description of an address: no whitespace, exactly one `@`, a
 non-empty part before it, and a `.` strictly inside the part after it.
 */
module EmailPattern {
  import opened JsText

  /** `[^\s@]`: the character class of every run in the pattern. A `.` is in
      the class, so runs may contain dots. */
  predicate AddressChar(c: char) {
    !IsWhitespace(c) && c != '@'
  }

  predicate AllAddressChars(s: string) {
    forall i :: 0 <= i < |s| ==> AddressChar(s[i])
  }

  /** A token of the pattern: a literal character, or `[^\s@]+`. */
  datatype Token = Lit(c: char) | AddressRun

  /** Whole-string match (`^…$`). A run consumes one character of its class
      and then either ends or keeps consuming, as a backtracking engine
      would try both. */
  predicate Matches(p: seq<Token>, s: string)
    decreases |p|, |s|
  {
    if p == [] then s == []
    else match p[0]
      case Lit(c) => |s| > 0 && s[0] == c && Matches(p[1..], s[1..])
      case AddressRun =>
        |s| > 0 && AddressChar(s[0]) && (Matches(p[1..], s[1..]) || Matches(p, s[1..]))
  }

  /** `[^\s@]+\.[^\s@]+`: the part after the `@`. */
  const DomainPattern: seq<Token> := [AddressRun, Lit('.'), AddressRun]

  /** `^[^\s@]+@[^\s@]+\.[^\s@]+$` */
  const AddressPattern: seq<Token> := [AddressRun, Lit('@')] + DomainPattern

  /** `isValidEmail(email)`: `emailRegex.test(email)`. */
  predicate IsValidEmail(s: string) {
    Matches(AddressPattern, s)
  }

  /** A `.` at some index other than the first or the last. */
  predicate HasInteriorDot(d: string) {
    exists i :: 0 < i < |d| - 1 && d[i] == '.'
  }

  function LocalPart(s: string): (local: string)
    requires '@' in s
  {
    s[..IndexOf(s, '@')]
  }

  function DomainPart(s: string): (domain: string)
    requires '@' in s
  {
    s[IndexOf(s, '@') + 1..]
  }

  /** The structural description of an address the pattern accepts. */
  predicate WellFormedAddress(s: string) {
    && NoWhitespace(s)
    && Count(s, '@') == 1
    && LocalPart(s) != []
    && HasInteriorDot(DomainPart(s))
  }

  /** A lone run matches exactly the non-empty strings of its class. */
  lemma {:induction false} RunMatches(s: string)
    ensures Matches([AddressRun], s) <==> s != [] && AllAddressChars(s)
    decreases |s|
  {
    if s != [] {
      assert [AddressRun][1..] == [];
      RunMatches(s[1..]);
      assert AllAddressChars(s) <==> AddressChar(s[0]) && AllAddressChars(s[1..]) by {
        assert forall i :: 0 < i < |s| ==> s[i] == s[1..][i - 1];
      }
    }
  }

  lemma DotRunMatches(s: string)
    ensures Matches([Lit('.'), AddressRun], s) <==> |s| >= 2 && s[0] == '.' && AllAddressChars(s[1..])
  {
    assert [Lit('.'), AddressRun][1..] == [AddressRun];
    if s != [] {
      RunMatches(s[1..]);
    }
  }

  /** The part after the `@` matches exactly when it is made of class
      characters and has a dot strictly inside it. */
  lemma {:induction false} DomainMatches(s: string)
    ensures Matches(DomainPattern, s) <==> AllAddressChars(s) && HasInteriorDot(s)
    decreases |s|
  {
    if s == [] {
      return;
    }
    assert DomainPattern[1..] == [Lit('.'), AddressRun];
    assert Matches(DomainPattern, s) <==>
      AddressChar(s[0]) && (Matches([Lit('.'), AddressRun], s[1..]) || Matches(DomainPattern, s[1..]));
    DotRunMatches(s[1..]);
    DomainMatches(s[1..]);
    SplitFirst(s);
    if Matches([Lit('.'), AddressRun], s[1..]) {
      SplitFirst(s[1..]);
      assert 0 < 1 < |s| - 1 && s[1] == '.';
    } else if Matches(DomainPattern, s[1..]) {
      var j :| 0 < j < |s[1..]| - 1 && s[1..][j] == '.';
      assert 0 < j + 1 < |s| - 1 && s[j + 1] == '.';
    }
    if AllAddressChars(s) && HasInteriorDot(s) {
      var i :| 0 < i < |s| - 1 && s[i] == '.';
      if s[1] == '.' {
        SplitFirst(s[1..]);
      } else {
        assert 0 < i - 1 < |s[1..]| - 1 && s[1..][i - 1] == '.';
      }
    }
  }

  /** Class membership of a non-empty string splits into its first
      character and the rest. */
  lemma SplitFirst(s: string)
    requires s != []
    ensures AllAddressChars(s) <==> AddressChar(s[0]) && AllAddressChars(s[1..])
  {
  }

  /** The whole pattern matches exactly when there is an `@` whose leading
      run is non-empty and class-only and whose remainder matches the
      domain part. The `@` concerned is necessarily the first one. */
  lemma {:induction false} AddressMatches(s: string)
    ensures Matches(AddressPattern, s) <==>
      && '@' in s
      && 0 < IndexOf(s, '@')
      && AllAddressChars(s[..IndexOf(s, '@')])
      && Matches(DomainPattern, s[IndexOf(s, '@') + 1..])
    decreases |s|
  {
    if s == [] {
      return;
    }
    var atRest := [Lit('@')] + DomainPattern;
    assert AddressPattern[1..] == atRest;
    assert atRest[1..] == DomainPattern;
    assert Matches(AddressPattern, s) <==>
      AddressChar(s[0]) && (Matches(atRest, s[1..]) || Matches(AddressPattern, s[1..]));
    AddressMatches(s[1..]);
    assert s == [s[0]] + s[1..];
    if AddressChar(s[0]) && '@' in s[1..] {
      var j := IndexOf(s[1..], '@');
      assert s[1..][j] == '@';
      assert IndexOf(s, '@') == j + 1;
      assert s[..j + 1] == [s[0]] + s[1..][..j];
      SplitFirst(s[..j + 1]);
      assert s[j + 2..] == s[1..][j + 1..];
    }
  }

  /** A string of class characters is one with no whitespace and no `@`. */
  lemma AllAddressCharsIff(x: string)
    ensures AllAddressChars(x) <==> NoWhitespace(x) && '@' !in x
  {
  }

  /** Around the first `@`, the structural description reads as: class
      characters on both sides, something before it, and an interior dot
      after it. */
  lemma WellFormedAroundAt(s: string)
    requires '@' in s
    ensures WellFormedAddress(s) <==>
      && 0 < IndexOf(s, '@')
      && AllAddressChars(s[..IndexOf(s, '@')])
      && AllAddressChars(s[IndexOf(s, '@') + 1..])
      && HasInteriorDot(s[IndexOf(s, '@') + 1..])
  {
    var i := IndexOf(s, '@');
    OnlyAtAfter(s, i);
    NoWhitespaceAround(s, i);
    AllAddressCharsIff(s[..i]);
    AllAddressCharsIff(s[i + 1..]);
  }

  /** With `i` the first `@`, there is exactly one `@` when none follows. */
  lemma OnlyAtAfter(s: string, i: nat)
    requires '@' in s && i == IndexOf(s, '@')
    ensures Count(s, '@') == 1 <==> '@' !in s[i + 1..]
  {
    var before, after := s[..i], s[i + 1..];
    assert s == before + ([s[i]] + after);
    CountConcat(before, [s[i]] + after, '@');
    CountConcat([s[i]], after, '@');
  }

  /** Whitespace-free around an `@` means whitespace-free on both sides. */
  lemma NoWhitespaceAround(s: string, i: nat)
    requires i < |s| && s[i] == '@'
    ensures NoWhitespace(s) <==> NoWhitespace(s[..i]) && NoWhitespace(s[i + 1..])
  {
  }

  /** `isValidEmail` accepts exactly the well-formed addresses: no
      whitespace anywhere, exactly one `@`, something before it, and a `.`
      after it that is neither the first nor the last character there. */
  lemma ValidEmailIffWellFormed(s: string)
    ensures IsValidEmail(s) <==> WellFormedAddress(s)
  {
    AddressMatches(s);
    if '@' in s {
      WellFormedAroundAt(s);
      DomainMatches(s[IndexOf(s, '@') + 1..]);
    }
  }

  /** An address the pattern accepts. */
  lemma SampleAddressAccepted(s: string)
    requires s == "jane@example.com"
    ensures IsValidEmail(s)
  {
    SampleAddressShape(s);
    DomainMatches(s[5..]);
    AddressMatches(s);
  }

  lemma SampleAddressShape(s: string)
    requires s == "jane@example.com"
    ensures '@' in s && IndexOf(s, '@') == 4
    ensures AllAddressChars(s[..4]) && AllAddressChars(s[5..]) && HasInteriorDot(s[5..])
  {
    SampleAt(s);
    SampleDomainShape(s[5..]);
  }

  lemma SampleAt(s: string)
    requires s == "jane@example.com"
    ensures '@' in s && IndexOf(s, '@') == 4
  {
  }

  lemma SampleDomainShape(d: string)
    requires d == "example.com"
    ensures AllAddressChars(d) && HasInteriorDot(d)
  {
    assert d[7] == '.';
  }

  /** A string without `@`, which the pattern rejects. */
  lemma SampleAddressRejected(s: string)
    requires s == "not-an-email"
    ensures !IsValidEmail(s)
  {
    assert '@' !in s;
    ValidEmailIffWellFormed(s);
  }
}
