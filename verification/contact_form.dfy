/** The contact form's submit handler: every field must be non-blank, and
    the e-mail address must have the shape `^[^\s@]+@[^\s@]+\.[^\s@]+$`,
    before the success branch is taken. */
module ContactForm {
  import opened Optional
  import opened Text

  /** A character of the class `[^\s@]`. */
  predicate IsAddressChar(c: char) {
    !IsSpace(c) && c != '@'
  }

  /** A match of `[^\s@]+`. */
  predicate IsAtom(t: string) {
    |t| > 0 && forall k | 0 <= k < |t| :: IsAddressChar(t[k])
  }

  /** The e-mail regular expression, read as the strings `A@B.C` with `A`,
      `B` and `C` matches of `[^\s@]+` (the `.` of the pattern is escaped,
      so it stands for a literal dot). */
  predicate MatchesEmailPattern(s: string) {
    exists i, j | 0 <= i < j < |s| ::
      && s[i] == '@' && s[j] == '.'
      && IsAtom(s[..i]) && IsAtom(s[i + 1..j]) && IsAtom(s[j + 1..])
  }

  /** The same shape, described by counting: no whitespace anywhere, exactly
      one '@', something before it, and a '.' strictly inside the part after
      it (neither right after the '@' nor last). */
  predicate HasEmailShape(s: string) {
    && (forall k | 0 <= k < |s| :: !IsSpace(s[k]))
    && exists i | 0 < i < |s| ::
      && s[i] == '@'
      && (forall k | 0 <= k < |s| && k != i :: s[k] != '@')
      && (exists j | i + 1 < j < |s| - 1 :: s[j] == '.')
  }

  /** The characters of an atom. */
  lemma AtomChar(s: string, lo: int, hi: int, k: int)
    requires 0 <= lo <= k < hi <= |s|
    requires IsAtom(s[lo..hi])
    ensures IsAddressChar(s[k])
  {
    assert s[lo..hi][k - lo] == s[k];
  }

  /** A match of the pattern has the counted shape. */
  lemma PatternHasShape(s: string)
    requires MatchesEmailPattern(s)
    ensures HasEmailShape(s)
  {
    var i, j :| 0 <= i < j < |s| && s[i] == '@' && s[j] == '.'
      && IsAtom(s[..i]) && IsAtom(s[i + 1..j]) && IsAtom(s[j + 1..]);
    assert s[..i] == s[0..i];
    assert s[j + 1..] == s[j + 1..|s|];
    forall k | 0 <= k < |s| && k != i && k != j
      ensures IsAddressChar(s[k])
    {
      if k < i {
        AtomChar(s, 0, i, k);
      } else if k < j {
        AtomChar(s, i + 1, j, k);
      } else {
        AtomChar(s, j + 1, |s|, k);
      }
    }
    assert i + 1 < j < |s| - 1 && s[j] == '.';
  }

  /** A string of the counted shape matches the pattern. */
  lemma ShapeMatchesPattern(s: string)
    requires HasEmailShape(s)
    ensures MatchesEmailPattern(s)
  {
    var i :| 0 < i < |s| && s[i] == '@'
      && (forall k | 0 <= k < |s| && k != i :: s[k] != '@')
      && (exists j | i + 1 < j < |s| - 1 :: s[j] == '.');
    var j :| i + 1 < j < |s| - 1 && s[j] == '.';
    assert IsAtom(s[..i]) by {
      forall k | 0 <= k < i ensures IsAddressChar(s[..i][k]) {
        assert s[..i][k] == s[k];
      }
    }
    var domain := s[i + 1..j];
    assert IsAtom(domain) by {
      forall k | 0 <= k < |domain| ensures IsAddressChar(domain[k]) {
        assert domain[k] == s[i + 1 + k];
      }
    }
    var tld := s[j + 1..];
    assert IsAtom(tld) by {
      forall k | 0 <= k < |tld| ensures IsAddressChar(tld[k]) {
        assert tld[k] == s[j + 1 + k];
      }
    }
  }

  /** The pattern and the counted shape accept the same strings. */
  lemma PatternIffShape(s: string)
    ensures MatchesEmailPattern(s) <==> HasEmailShape(s)
  {
    if MatchesEmailPattern(s) {
      PatternHasShape(s);
    }
    if HasEmailShape(s) {
      ShapeMatchesPattern(s);
    }
  }

  /** How a submission ends: an alert about a missing field, an alert about
      the address, or the success branch (message shown, form reset). */
  datatype Outcome = MissingField | InvalidEmail | Sent

  /** The value a field contributes: its trimmed value, or "" when the
      element is not on the page. */
  function FieldValue(input: Option<string>): string {
    match input
    case None => ""
    case Some(v) => Trim(v)
  }

  /** A field that counts as not filled in: absent, or only whitespace. */
  predicate Blank(input: Option<string>) {
    input.None? || AllSpace(input.value)
  }

  /** The submit handler. A blank field is reported first, whatever the
      address; only when all three are filled in is the address checked;
      only a well-formed address reaches the success branch. */
  function Submit(name: Option<string>, email: Option<string>, message: Option<string>): (o: Outcome)
    ensures o == MissingField <==> Blank(name) || Blank(email) || Blank(message)
    ensures o == InvalidEmail <==>
      !Blank(name) && !Blank(email) && !Blank(message) && !HasEmailShape(Trim(email.value))
    ensures o == Sent <==>
      !Blank(name) && !Blank(email) && !Blank(message) && HasEmailShape(Trim(email.value))
  {
    var n := FieldValue(name);
    var e := FieldValue(email);
    var m := FieldValue(message);
    PatternIffShape(e);
    if n == "" || e == "" || m == "" then MissingField
    else if !MatchesEmailPattern(e) then InvalidEmail
    else Sent
  }

  /** An empty name is refused even with a good address. */
  lemma EmptyNameRefused()
    ensures Submit(Some(""), Some("a@b.com"), Some("hi")) == MissingField
  {
  }

  /** An address without '@' is refused. */
  lemma AddressWithoutAtRefused()
    ensures Submit(Some("A"), Some("not-an-email"), Some("hi")) == InvalidEmail
  {
    var e := "not-an-email";
    assert !IsSpace('n') && !IsSpace('l');
    TrimNoop(e);
    assert forall k | 0 <= k < |e| :: e[k] != '@';
    assert !AllSpace("A") by {
      assert "A"[0] == 'A' && !IsSpace('A');
    }
    assert !AllSpace("hi") by {
      assert "hi"[0] == 'h' && !IsSpace('h');
    }
  }

  /** Three filled-in fields with the address "a@b.com" are accepted. */
  lemma WellFormedAccepted()
    ensures Submit(Some("A"), Some("a@b.com"), Some("hi")) == Sent
  {
    GoodAddress();
    assert !AllSpace("A") by {
      assert "A"[0] == 'A' && !IsSpace('A');
    }
    assert !AllSpace("hi") by {
      assert "hi"[0] == 'h' && !IsSpace('h');
    }
  }

  /** "a@b.com" is filled in, is its own trim, and has the shape of an
      address. */
  lemma GoodAddress()
    ensures !AllSpace("a@b.com")
    ensures Trim("a@b.com") == "a@b.com"
    ensures HasEmailShape("a@b.com")
  {
    var e := "a@b.com";
    assert !IsSpace('a') && !IsSpace('m');
    TrimNoop(e);
    GoodAddressShape();
  }

  /** "a@b.com" has one '@' after a non-empty local part and a '.' inside
      its domain. */
  lemma GoodAddressShape()
    ensures HasEmailShape("a@b.com")
  {
    var e := "a@b.com";
    assert forall k | 0 <= k < |e| :: !IsSpace(e[k]);
    assert e[1] == '@' && e[3] == '.';
  }


}
