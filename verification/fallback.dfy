/**
 * The JavaScript fallback module used when no native module is registered:
 * it keeps one persisted token in memory and answers every paged request with
 * no items and that token.
 */
module Fallback {

  /** The fallback's only state: the token last committed (initially empty). */
  datatype FallbackModule = FallbackModule(persistedToken: string)

  const Initial := FallbackModule("")

  /** A call on the module, with the arguments its caller passes. */
  datatype Call =
    | GetAll(offset: int, limit: int)
    | GetUpdatedSince(since: string, offset: int, limit: int)
    | GetPersistedSince
    | GetUpdatedFromPersisted(offset: int, limit: int)
    | CommitPersisted(nextSince: string)

  /** What a call returns: a list, a page with its token, a bare token, or nothing. */
  datatype Answer<T> =
    | Items(items: seq<T>)
    | Paged(items: seq<T>, nextSince: string)
    | Token(token: string)
    | Done

  /** The answer has the shape the call's signature promises. */
  predicate Fits<T>(c: Call, a: Answer<T>) {
    match c
    case GetAll(_, _) => a.Items?
    case GetUpdatedSince(_, _, _) => a.Paged?
    case GetPersistedSince => a.Token?
    case GetUpdatedFromPersisted(_, _) => a.Paged?
    case CommitPersisted(_) => a.Done?
  }

  /** The answer carries no items, and any token in it is `token`. */
  predicate Reports<T>(a: Answer<T>, token: string) {
    && (a.Items? || a.Paged? ==> a.items == [])
    && (a.Paged? ==> a.nextSince == token)
    && (a.Token? ==> a.token == token)
  }

  /** One call: its answer and the module afterwards. Only a commit changes the state, and it stores any string. */
  function Step<T>(m: FallbackModule, c: Call): (r: (Answer<T>, FallbackModule))
    ensures Fits(c, r.0) && Reports(r.0, m.persistedToken)
    ensures c.CommitPersisted? ==> r.1.persistedToken == c.nextSince
    ensures !c.CommitPersisted? ==> r.1 == m
  {
    match c
    case GetAll(_, _) => (Items([]), m)
    case GetUpdatedSince(_, _, _) => (Paged([], m.persistedToken), m)
    case GetPersistedSince => (Token(m.persistedToken), m)
    case GetUpdatedFromPersisted(_, _) => (Paged([], m.persistedToken), m)
    case CommitPersisted(t) => (Done, FallbackModule(t))
  }

  /** A sequence of calls, in order: the answers and the module afterwards. */
  function Run<T>(m: FallbackModule, calls: seq<Call>): (r: (seq<Answer<T>>, FallbackModule))
    ensures |r.0| == |calls|
  {
    if |calls| == 0 then ([], m)
    else
      var n := |calls| - 1;
      var before := Run<T>(m, calls[..n]);
      var step := Step<T>(before.1, calls[n]);
      (before.0 + [step.0], step.1)
  }

  /** The argument of the last commit among `calls`, or `start` when there is none. */
  function LastCommitted(start: string, calls: seq<Call>): string {
    if |calls| == 0 then start
    else if calls[|calls| - 1].CommitPersisted? then calls[|calls| - 1].nextSince
    else LastCommitted(start, calls[..|calls| - 1])
  }

  /**
   * Whatever the calls and their arguments: every answer has the promised shape,
   * carries no items, and reports the token of the last commit before it (or the
   * starting token); the module ends holding the last committed token.
   */
  lemma {:induction false} RunReportsLastCommit<T>(m: FallbackModule, calls: seq<Call>)
    ensures Run<T>(m, calls).1.persistedToken == LastCommitted(m.persistedToken, calls)
    ensures forall i :: 0 <= i < |calls| ==>
      Fits(calls[i], Run<T>(m, calls).0[i]) && Reports(Run<T>(m, calls).0[i], LastCommitted(m.persistedToken, calls[..i]))
  {
    if |calls| > 0 {
      var n := |calls| - 1;
      RunReportsLastCommit<T>(m, calls[..n]);
      var before := Run<T>(m, calls[..n]);
      var answers := Run<T>(m, calls).0;
      assert answers == before.0 + [Step<T>(before.1, calls[n]).0];
      forall i | 0 <= i < |calls|
        ensures Fits(calls[i], answers[i]) && Reports(answers[i], LastCommitted(m.persistedToken, calls[..i]))
      {
        if i < n {
          assert calls[..n][..i] == calls[..i];
          assert calls[..n][i] == calls[i];
        } else {
          assert calls[..i] == calls[..n];
        }
      }
    }
  }

  /** A fresh module reports the empty token. */
  lemma FreshTokenIsEmpty()
    ensures Run<int>(Initial, [GetPersistedSince]).0 == [Token("")]
  {
    assert [GetPersistedSince][..0] == [];
  }

  /** A commit is read back unchanged, the empty string included. */
  lemma CommitThenRead(m: FallbackModule, t: string)
    ensures Run<int>(m, [CommitPersisted(t), GetPersistedSince]).0[1] == Token(t)
  {
    var calls := [CommitPersisted(t), GetPersistedSince];
    RunReportsLastCommit<int>(m, calls);
    assert calls[..1] == [CommitPersisted(t)];
    assert LastCommitted(m.persistedToken, calls[..1]) == t by {
      assert calls[..1][..0] == [];
    }
  }
}
