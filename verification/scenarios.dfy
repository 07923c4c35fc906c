/** Concrete walks through the login form: one per outcome of a submit. */
module Scenarios {
  import opened Text
  import opened Email
  import opened App

  /** An empty name is reported as a missing field, even next to a
      well-formed address, and nobody is logged in. */
  lemma EmptyNameIsRequired()
    ensures var t := Run(Start, [TypeEmail("a@b.com"), ClickLogIn]);
            t.Some? && t.value.error == RequiredMessage && t.value.user.None?
            && t.value.draftEmail == "a@b.com"
  {
    var s := Step(Start, TypeEmail("a@b.com"));
    assert AllSpace(s.draftName);
  }

  /** A name of spaces is blank too: `handleLogin` trims a field before
      testing it for emptiness. */
  lemma SpacesOnlyNameIsRequired()
    ensures var t := Run(Start, [TypeName("   "), TypeEmail("a@b.com"), ClickLogIn]);
            t.Some? && t.value.error == RequiredMessage && t.value.user.None?
  {
    var s := Step(Step(Start, TypeName("   ")), TypeEmail("a@b.com"));
    assert AllSpace(s.draftName);
  }

  /** An address without `@` is rejected as malformed; the drafts stay. */
  lemma AddressWithoutAtIsInvalid()
    ensures var t := Run(Start, [TypeName("Kai"), TypeEmail("not-an-email"), ClickLogIn]);
            t.Some? && t.value.error == InvalidEmailMessage && t.value.user.None?
            && t.value.draftName == "Kai" && t.value.draftEmail == "not-an-email"
  {
    var s := Step(Step(Start, TypeName("Kai")), TypeEmail("not-an-email"));
    assert !AllSpace(s.draftName) by { assert !IsSpace(s.draftName[0]); }
    assert !AllSpace(s.draftEmail) by { assert !IsSpace(s.draftEmail[0]); }
    assert !HasShape(s.draftEmail) by {
      forall i | 0 < i < |s.draftEmail| ensures !SoleAt(s.draftEmail, i) {
        assert s.draftEmail[i] != '@';
      }
    }
  }

  /** `kai@example.com` is of the accepted shape: `kai`, `@`, `example`,
      `.`, `com`. */
  lemma SampleAddressIsValid()
    ensures IsValidEmail("kai@example.com")
  {
    var e := "kai@example.com";
    assert e[3] == '@' && e[11] == '.';
    assert AllPlain(e[..3]) by {
      assert e[..3] == "kai";
    }
    assert AllPlain(e[4..11]) by {
      assert e[4..11] == "example";
    }
    assert AllPlain(e[12..]) by {
      assert e[12..] == "com";
    }
  }

  /** A well-formed address logs the user in with the typed values and
      clears the form; the submit button is then gone. */
  lemma WellFormedAddressLogsIn()
    ensures var t := Run(Start, [TypeName("Kai"), TypeEmail("kai@example.com"), ClickLogIn]);
            && t.Some? && t.value.user == Some(User("Kai", "kai@example.com"))
            && t.value.draftName == "" && t.value.draftEmail == "" && t.value.error == ""
            && !Enabled(t.value, ClickLogIn)
  {
    var es := [TypeName("Kai"), TypeEmail("kai@example.com"), ClickLogIn];
    var s1 := Step(Start, es[0]);
    var s2 := Step(s1, es[1]);
    assert Run(Start, es) == Run(s2, [ClickLogIn]) by {
      assert es[1..] == [TypeEmail("kai@example.com"), ClickLogIn];
      assert es[1..][1..] == [ClickLogIn];
    }
    assert !AllSpace(s2.draftName) by { assert !IsSpace(s2.draftName[0]); }
    SampleAddressIsValid();
    PatternIffShape(s2.draftEmail);
  }

  /** Logging out after a successful login brings back an empty form. */
  lemma LogoutAfterLoginReopensForm()
    ensures var t := Run(Start, [TypeName("Kai"), TypeEmail("kai@example.com"), ClickLogIn, ClickLogout]);
            && t.Some? && t.value.user.None? && Enabled(t.value, ClickLogIn)
            && t.value.draftName == "" && t.value.draftEmail == "" && t.value.error == ""
  {
    var es := [TypeName("Kai"), TypeEmail("kai@example.com"), ClickLogIn];
    WellFormedAddressLogsIn();
    RunAppend(Start, es, [ClickLogout]);
    assert es + [ClickLogout] == [TypeName("Kai"), TypeEmail("kai@example.com"), ClickLogIn, ClickLogout];
  }
}
