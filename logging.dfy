/**
 * The process-wide logger, replaced by a sink that keeps every entry it is
 * given, in order. Its threshold is the info level, so both levels used by
 * the program are kept. Messages are kept structured instead of rendered.
 */
module Logging {

  datatype Level = Info | Error

  datatype Message =
    | FetchingUsers                                              // before the request
    | FetchStatus(status: int, count: nat)                       // the request succeeded
    | FetchFailed(reason: string)                                // the request, or reading its result, threw
    | UserDetails(id: int, name: string, email: string, company: string)  // a user with a valid email
    | InvalidEmail(id: int, email: string)                       // a user with an invalid email

  datatype Entry = Entry(level: Level, message: Message)

  class Logger {
    var entries: seq<Entry>

    constructor ()
      ensures entries == []
    {
      entries := [];
    }

    method Info(m: Message)
      modifies this
      ensures entries == old(entries) + [Entry(Level.Info, m)]
    {
      entries := entries + [Entry(Level.Info, m)];
    }

    method Error(m: Message)
      modifies this
      ensures entries == old(entries) + [Entry(Level.Error, m)]
    {
      entries := entries + [Entry(Level.Error, m)];
    }
  }
}
