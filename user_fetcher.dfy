/**
 * UserFetcher.fetchUsers under the lenient policy: log the attempt, and on
 * success log the status and the number of users and return the response
 * body; if anything in the try block throws, log the reason and return no
 * users. The HTTP request itself is an input: the outcome the transport
 * delivered.
 */
module UserFetcher {
  import opened Users
  import opened Logging

  /** The response body: an array of user records, or null. */
  datatype Body = UserArray(users: seq<User>) | NullBody

  /** What the transport delivers: a resolved response, or a rejection with its error message. */
  datatype Transport = Resolved(status: int, data: Body) | Rejected(message: string)

  /** The runtime's message when the success branch reads the length of a null body. */
  const NULL_BODY_REASON: string := "Cannot read properties of null (reading 'length')"

  /** The users fetchUsers returns. */
  function FetchResult(t: Transport): (users: seq<User>)
    ensures users == [] || (t.Resolved? && t.data.UserArray? && users == t.data.users)
  {
    match t
    case Resolved(_, UserArray(users)) => users
    case Resolved(_, NullBody) => []
    case Rejected(_) => []
  }

  /** Everything fetchUsers logs. */
  function FetchLog(t: Transport): (log: seq<Entry>)
    ensures |log| == 2 && log[0] == Entry(Info, FetchingUsers)
    ensures log[1].level == Info <==> t.Resolved? && t.data.UserArray?
  {
    [Entry(Info, FetchingUsers)] +
    match t
    case Resolved(status, UserArray(users)) => [Entry(Info, FetchStatus(status, |users|))]
    case Resolved(_, NullBody) => [Entry(Error, FetchFailed(NULL_BODY_REASON))]
    case Rejected(message) => [Entry(Error, FetchFailed(message))]
  }

  /**
   * The result is never invented: it is empty, or it is the response body
   * unchanged. The second entry of the log reports success, with the count of
   * users returned, exactly when the body was an array; otherwise it is an
   * error and nothing is returned.
   */
  lemma FetchOutcome(t: Transport)
    ensures FetchResult(t) == [] || (t.Resolved? && t.data.UserArray? && FetchResult(t) == t.data.users)
    ensures |FetchLog(t)| == 2 && FetchLog(t)[0] == Entry(Info, FetchingUsers)
    ensures FetchLog(t)[1].level == Info <==> t.Resolved? && t.data.UserArray?
    ensures FetchLog(t)[1].level == Info ==> FetchLog(t)[1].message == FetchStatus(t.status, |FetchResult(t)|)
    ensures FetchLog(t)[1].level == Error ==> FetchResult(t) == [] && FetchLog(t)[1].message.FetchFailed?
  {
  }

  /** A rejected request yields no users and logs its error message. */
  lemma FailureYieldsEmpty(t: Transport)
    requires t.Rejected?
    ensures FetchResult(t) == []
    ensures FetchLog(t) == [Entry(Info, FetchingUsers), Entry(Error, FetchFailed(t.message))]
  {
  }

  /** A resolved request with an array body yields that array unchanged, empty or not. */
  lemma SuccessYieldsData(t: Transport)
    requires t.Resolved? && t.data.UserArray?
    ensures FetchResult(t) == t.data.users
    ensures FetchLog(t) == [Entry(Info, FetchingUsers), Entry(Info, FetchStatus(t.status, |t.data.users|))]
  {
  }

  /** The control flow of fetchUsers. */
  method FetchUsers(logger: Logger, t: Transport) returns (users: seq<User>)
    modifies logger
    ensures users == FetchResult(t)
    ensures logger.entries == old(logger.entries) + FetchLog(t)
  {
    logger.Info(FetchingUsers);
    match t {
      case Resolved(status, data) =>
        match data {
          case UserArray(body) =>
            logger.Info(FetchStatus(status, |body|));
            users := body;
          case NullBody =>
            logger.Error(FetchFailed(NULL_BODY_REASON));
            users := [];
        }
      case Rejected(message) =>
        logger.Error(FetchFailed(message));
        users := [];
    }
  }
}
