/**
 * The fetcher cases of the repository's test suite, and one run per log
 * level of the processor.
 */
module PipelineExamples {
  import opened Users
  import opened Logging
  import opened EmailValidation
  import opened UserFetcher
  import opened UserProcessor
  import opened Program

  const ILAN := User(1, "Ilan vaizman", "ilan@gmail.com", Company("someName"))

  /** A resolved request returns its body as it is, including an empty array. */
  lemma FetchReturnsResponseData()
    ensures FetchResult(Resolved(200, UserArray([ILAN]))) == [ILAN]
    ensures FetchResult(Resolved(200, UserArray([]))) == []
  {
  }

  /** A rejected request returns an empty array, and a run then processes nobody. */
  lemma FetchFailureReturnsEmpty()
    ensures FetchResult(Rejected("Network Error")) == []
    ensures RunLog(Rejected("Network Error"))
      == [Entry(Info, FetchingUsers), Entry(Error, FetchFailed("Network Error"))]
  {
    RunOnFailure(Rejected("Network Error"));
  }

  /** A user with a valid email is logged at info level with all four fields. */
  lemma ValidUserIsLoggedAsInfo()
    ensures ProcessLog([ILAN]) == [Entry(Info, UserDetails(1, "Ilan vaizman", "ilan@gmail.com", "someName"))]
  {
    assert PatternSplit("ilan@gmail.com", 4, 10);
    IsValidEmailCorrect("ilan@gmail.com");
    assert [ILAN][..0] == [];
  }

  /** A user with an invalid email is logged at error level with its id and email. */
  lemma InvalidUserIsLoggedAsError()
    ensures ProcessLog([User(2, "Ilan vaizman", "invalid-email", Company("someName"))])
      == [Entry(Error, InvalidEmail(2, "invalid-email"))]
  {
    var u := User(2, "Ilan vaizman", "invalid-email", Company("someName"));
    assert '@' !in u.email;
    RejectsUnlessExactlyOneAt(u.email);
    assert [u][..0] == [];
  }
}
