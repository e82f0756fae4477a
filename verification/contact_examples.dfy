/** Addresses on both sides of the contact form's e-mail pattern. */
module ContactExamples {
  import opened Wrappers
  import opened Store
  import opened Contact

  lemma AcceptedAddresses()
    ensures MatchesEmailPattern("ada@x.io")
    ensures MatchesEmailPattern("a@b.c.")
  {
    var e := "ada@x.io";
    assert e[3] == '@' && e[5] == '.';
    assert PatternRun(e[..3]) && PatternRun(e[4..5]) && PatternRun(e[6..]);
    var f := "a@b.c.";
    assert f[1] == '@' && f[3] == '.';
    assert PatternRun(f[..1]) && PatternRun(f[2..3]) && PatternRun(f[4..]);
  }

  lemma RejectedWithoutDomainDot()
    ensures !MatchesEmailPattern("ada@x")
  {
    EmailPatternCharacterised("ada@x");
    assert !HasInnerDot("x");
  }

  lemma RejectedWithoutLocalPart()
    ensures !MatchesEmailPattern("@x.io")
  {
    EmailPatternCharacterised("@x.io");
  }

  lemma RejectedWithDotRightAfterAt()
    ensures !MatchesEmailPattern("a@.io")
  {
    EmailPatternCharacterised("a@.io");
    assert !HasInnerDot(".io");
  }

  lemma RejectedWithTwoAtSigns()
    ensures !MatchesEmailPattern("a@b@c.io")
  {
    EmailPatternCharacterised("a@b@c.io");
    assert !SoleAtSign("a@b@c.io", 1) by { assert "a@b@c.io"[3] == '@'; }
    assert !SoleAtSign("a@b@c.io", 3) by { assert "a@b@c.io"[1] == '@'; }
  }

  lemma RejectedWithSpace()
    ensures !MatchesEmailPattern("a b@c.io")
  {
    EmailPatternCharacterised("a b@c.io");
    assert !NoWhitespace("a b@c.io") by { assert IsJsWhitespace("a b@c.io"[1]); }
  }

  lemma TrimPadded()
    ensures Trim(" Ada ") == "Ada"
  {
    assert " Ada " == " " + "Ada" + " ";
    TrimRemovesPadding(" ", "Ada", " ");
  }

  lemma TrimAddress()
    ensures Trim(" ada@x.io\n") == "ada@x.io"
  {
    assert " ada@x.io\n" == " " + "ada@x.io" + "\n";
    TrimRemovesPadding(" ", "ada@x.io", "\n");
  }

  lemma TrimWord()
    ensures Trim("Hello") == "Hello"
  {
    assert "Hello" == "" + "Hello" + "";
    TrimRemovesPadding("", "Hello", "");
  }

  lemma SanitisedName()
    ensures Sanitise(Some(" Ada "), NameLimit) == "Ada"
  {
    TrimPadded();
  }

  lemma SanitisedAddress()
    ensures Sanitise(Some(" ada@x.io\n"), EmailLimit) == "ada@x.io"
  {
    TrimAddress();
  }

  lemma SanitisedMessage()
    ensures Sanitise(Some("Hello"), MessageLimit) == "Hello"
  {
    TrimWord();
  }

  /** Surrounding white space is trimmed away before the pattern is applied, so a padded
      address is accepted and stored without the padding. */
  lemma PaddedSubmissionIsStoredTrimmed(leads: seq<Lead>)
    ensures var form := ContactForm(Some(" Ada "), Some(" ada@x.io\n"), Some("Hello"));
      SubmitContactForm(true, form, leads, Inserted)
        == Submission(Sent, leads + [Lead("Ada", "ada@x.io", "Hello", "other", "unknown", "flexible", "new")])
  {
    AcceptedAddresses();
    EmailPatternCharacterised("ada@x.io");
    SanitisedName();
    SanitisedAddress();
    SanitisedMessage();
  }
}
