/** The e-mail shape check `isValidEmail`, which tests an address against the
    pattern `^[^\s@]+@[^\s@]+\.[^\s@]+$`. */
module Email {
  import opened JsString

  /** A character the class `[^\s@]` accepts. */
  predicate PatternChar(c: char)
  {
    !IsWhitespace(c) && c != '@'
  }

  /** A string `[^\s@]+` matches in full: non-empty, of pattern characters only. */
  predicate PatternRun(s: string)
  {
    |s| > 0 && forall i | 0 <= i < |s| :: PatternChar(s[i])
  }

  /** The language of the anchored pattern, read off it piece by piece: a run,
      `@`, a run, a literal `.`, a run. The runs may themselves hold dots. */
  ghost predicate MatchesEmailPattern(s: string)
  {
    exists local, host, tld | PatternRun(local) && PatternRun(host) && PatternRun(tld) ::
      s == local + "@" + host + "." + tld
  }

  /** The part after the `@` holds a `.` that is neither its first nor its last character. */
  predicate HasInnerDot(domain: string)
  {
    exists j | 0 < j < |domain| - 1 :: domain[j] == '.'
  }

  /** `isValidEmail(email)`: whether the address is in the language of the
      pattern, decided by its shape. */
  predicate IsValidEmail(email: string)
    ensures IsValidEmail(email) <==> MatchesEmailPattern(email)
  {
    EmailShapeMatchesPattern(email);
    HasEmailShape(email)
  }

  /** The shape the pattern demands, tested without a regular-expression
      engine: no whitespace anywhere, exactly one `@`, something before it, and
      an inner dot after it. */
  predicate HasEmailShape(email: string)
  {
    && (forall i | 0 <= i < |email| :: !IsWhitespace(email[i]))
    && Count(email, '@') == 1
    && var at := IndexOf(email, '@');
       0 < at < |email| && HasInnerDot(email[at + 1..])
  }

  /** The shape test accepts exactly the language of the pattern. */
  lemma EmailShapeMatchesPattern(email: string)
    ensures HasEmailShape(email) <==> MatchesEmailPattern(email)
  {
    if HasEmailShape(email) {
      ValidEmailHasPatternParts(email);
    }
    if MatchesEmailPattern(email) {
      var local, host, tld :| PatternRun(local) && PatternRun(host) && PatternRun(tld) &&
        email == local + "@" + host + "." + tld;
      PatternPartsMakeValidEmail(local, host, tld);
    }
  }

  /** Splits an accepted address at its `@` and at an inner dot after it. */
  lemma ValidEmailHasPatternParts(email: string)
    requires HasEmailShape(email)
    ensures MatchesEmailPattern(email)
  {
    var at := IndexOf(email, '@');
    var domain := email[at + 1..];
    var j :| 0 < j < |domain| - 1 && domain[j] == '.';
    var dot := at + 1 + j;
    OnlyOccurrence(email, '@', at);
    var local, host, tld := email[..at], email[at + 1..dot], email[dot + 1..];
    assert email[dot] == '.';
    assert email == local + "@" + host + "." + tld;
    assert PatternRun(local) by {
      forall i | 0 <= i < |local| ensures PatternChar(local[i]) {
        assert local[i] == email[i];
      }
    }
    assert PatternRun(host) by {
      forall i | 0 <= i < |host| ensures PatternChar(host[i]) {
        assert host[i] == email[at + 1 + i];
      }
    }
    assert PatternRun(tld) by {
      forall i | 0 <= i < |tld| ensures PatternChar(tld[i]) {
        assert tld[i] == email[dot + 1 + i];
      }
    }
  }

  /** The pieces of a pattern match, joined by `@` and `.`, hold no whitespace. */
  lemma JoinHasNoWhitespace(local: string, host: string, tld: string)
    requires PatternRun(local) && PatternRun(host) && PatternRun(tld)
    ensures forall i | 0 <= i < |local + "@" + host + "." + tld| :: !IsWhitespace((local + "@" + host + "." + tld)[i])
  {
    var email := local + "@" + host + "." + tld;
    forall i | 0 <= i < |email| ensures !IsWhitespace(email[i]) {
      if i < |local| {
        assert email[i] == local[i];
      } else if i == |local| {
        assert email[i] == '@';
      } else if i < |local| + 1 + |host| {
        assert email[i] == host[i - |local| - 1];
      } else if i == |local| + 1 + |host| {
        assert email[i] == '.';
      } else {
        assert email[i] == tld[i - |local| - |host| - 2];
      }
    }
  }

  /** Joins the pieces of a pattern match into an accepted address. */
  lemma PatternPartsMakeValidEmail(local: string, host: string, tld: string)
    requires PatternRun(local) && PatternRun(host) && PatternRun(tld)
    ensures HasEmailShape(local + "@" + host + "." + tld)
  {
    var email := local + "@" + host + "." + tld;
    var domain := host + "." + tld;
    assert email == local + ("@" + domain);
    JoinHasNoWhitespace(local, host, tld);
    assert '@' !in local by {
      forall i | 0 <= i < |local| ensures local[i] != '@' {
        assert PatternChar(local[i]);
      }
    }
    assert '@' !in domain by {
      forall i | 0 <= i < |domain| ensures domain[i] != '@' {
        if i < |host| {
          assert domain[i] == host[i];
        } else if i > |host| {
          assert domain[i] == tld[i - |host| - 1];
        }
      }
    }
    CountConcat(local, "@" + domain, '@');
    CountConcat("@", domain, '@');
    var at := IndexOf(email, '@');
    assert email[|local|] == '@';
    assert at == |local|;
    assert email[at + 1..] == domain;
    assert domain[|host|] == '.';
  }
}
