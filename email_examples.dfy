/**
 * The addresses of the repository's test suite, and one the expression
 * accepts although it has consecutive dots.
 */
module EmailExamples {
  import opened EmailValidation

  /** The test suite expects these three addresses to be valid. */
  lemma AcceptsPlainAddress()
    ensures IsValidEmail("test@example.com")
  {
    assert PatternSplit("test@example.com", 4, 12);
    IsValidEmailCorrect("test@example.com");
  }

  lemma AcceptsDottedLocalPartAndSubdomain()
    ensures IsValidEmail("user.name@domain.co.il")
  {
    assert PatternSplit("user.name@domain.co.il", 9, 19);
    IsValidEmailCorrect("user.name@domain.co.il");
  }

  lemma AcceptsHyphenatedLocalPart()
    ensures IsValidEmail("user-name@domain.org")
  {
    assert PatternSplit("user-name@domain.org", 9, 16);
    IsValidEmailCorrect("user-name@domain.org");
  }

  /** The test suite expects these strings to be invalid: no domain after the '@'. */
  lemma RejectsMissingDomain()
    ensures !IsValidEmail("test@")
  {
    IsValidEmailCorrect("test@");
    assert IndexOf("test@", '@') == 4;
    assert "test@"[5..] == "";
  }

  /** No dot in the domain. */
  lemma RejectsMissingTld()
    ensures !IsValidEmail("test@domain")
  {
    RejectsWithoutDot("test@domain");
  }

  /** No '@' at all. */
  lemma RejectsMissingAt()
    ensures !IsValidEmail("test")
    ensures !IsValidEmail("")
  {
    assert Count("test", '@') == 0;
    RejectsUnlessExactlyOneAt("test");
    RejectsUnlessExactlyOneAt("");
  }

  /** An empty local part. */
  lemma RejectsEmptyLocalPart()
    ensures !IsValidEmail("@domain.com")
  {
    IsValidEmailCorrect("@domain.com");
    assert IndexOf("@domain.com", '@') == 0;
  }

  /** Consecutive dots are not rejected, in the local part or in the domain. */
  lemma AcceptsConsecutiveDots()
    ensures IsValidEmail("a..b@x..com")
  {
    assert PatternSplit("a..b@x..com", 4, 7);
    IsValidEmailCorrect("a..b@x..com");
  }
}
