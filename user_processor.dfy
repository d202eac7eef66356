/**
 * UserProcessor.processUsers: one log entry per user, in input order, at info
 * level with the user's details when the email is valid and at error level
 * with the id and the email otherwise.
 */
module UserProcessor {
  import opened Users
  import opened Logging
  import opened EmailValidation

  /** The entry logged for one user. */
  function EntryFor(u: User): (e: Entry)
    ensures e.message.UserDetails? || e.message.InvalidEmail?
    ensures e.message.id == u.id && e.message.email == u.email
    ensures e.level == Info <==> e.message.UserDetails?
  {
    if IsValidEmail(u.email) then Entry(Info, UserDetails(u.id, u.name, u.email, u.company.name))
    else Entry(Error, InvalidEmail(u.id, u.email))
  }

  /** Everything processUsers logs for `users`, in order. */
  function ProcessLog(users: seq<User>): (log: seq<Entry>)
    ensures |log| == |users|
  {
    if users == [] then []
    else ProcessLog(users[..|users| - 1]) + [EntryFor(users[|users| - 1])]
  }

  /**
   * The level of a user's entry follows the email's shape alone, and the
   * entry carries the fields of that user: all four when the email is valid,
   * the id and the email otherwise.
   */
  lemma EntryForDispatch(u: User)
    ensures EntryFor(u).level == Info <==> WellFormedAddress(u.email)
    ensures EntryFor(u).level == Info <==> MatchesPattern(u.email)
    ensures EntryFor(u).level == Info ==>
      EntryFor(u).message == UserDetails(u.id, u.name, u.email, u.company.name)
    ensures EntryFor(u).level == Error ==> EntryFor(u).message == InvalidEmail(u.id, u.email)
  {
    IsValidEmailCorrect(u.email);
  }

  /** Exactly one entry per user, the i-th about the i-th user; nothing else is logged. */
  lemma {:induction false} ProcessLogOnePerUser(users: seq<User>)
    ensures |ProcessLog(users)| == |users|
    ensures forall i :: 0 <= i < |users| ==> ProcessLog(users)[i] == EntryFor(users[i])
  {
    if users != [] {
      var init := users[..|users| - 1];
      ProcessLogOnePerUser(init);
      var log := ProcessLog(users);
      assert log == ProcessLog(init) + [EntryFor(users[|users| - 1])];
      forall i | 0 <= i < |users| ensures log[i] == EntryFor(users[i]) {
        if i < |init| {
          assert users[i] == init[i];
        }
      }
    }
  }

  /** No user's entry depends on another user: processing a concatenation concatenates the logs. */
  lemma {:induction false} ProcessLogAppend(a: seq<User>, b: seq<User>)
    ensures ProcessLog(a + b) == ProcessLog(a) + ProcessLog(b)
    decreases |b|
  {
    if b == [] {
      assert a + b == a;
    } else {
      var init := b[..|b| - 1];
      assert (a + b)[..|a + b| - 1] == a + init;
      ProcessLogAppend(a, init);
    }
  }

  lemma ProcessLogPrefix(users: seq<User>, i: nat)
    requires i < |users|
    ensures ProcessLog(users[..i + 1]) == ProcessLog(users[..i]) + [EntryFor(users[i])]
  {
    assert users[..i + 1][..i] == users[..i];
  }

  /** The per-record loop of processUsers. */
  method ProcessUsers(logger: Logger, users: seq<User>)
    modifies logger
    ensures logger.entries == old(logger.entries) + ProcessLog(users)
  {
    var i := 0;
    while i < |users|
      invariant 0 <= i <= |users|
      invariant logger.entries == old(logger.entries) + ProcessLog(users[..i])
    {
      var user := users[i];
      ProcessLogPrefix(users, i);
      if IsValidEmail(user.email) {
        logger.Info(UserDetails(user.id, user.name, user.email, user.company.name));
      } else {
        logger.Error(InvalidEmail(user.id, user.email));
      }
      i := i + 1;
    }
    assert users[..i] == users;
  }
}
