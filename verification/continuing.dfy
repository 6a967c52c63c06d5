/** Loops that collect what a recursive reader returns: the parts read so far, and what is to come. */
module Continuing {
  import opened Wrappers
  import Seqs

  /** Reading on after `done` gives `rest`, so reading from the start gives `total`. */
  ghost predicate Continues<T, E>(total: Result<seq<T>, E>, done: seq<T>, rest: Result<seq<T>, E>) {
    if rest.Failure? then total == rest else total == Success(done + rest.value)
  }

  lemma ContinuesFirst<T, E>(total: Result<seq<T>, E>)
    ensures Continues(total, [], total)
  {
    if total.Success? {
      Seqs.Empty(total.value);
    }
  }

  lemma ContinuesLast<T, E>(total: Result<seq<T>, E>, done: seq<T>)
    ensures Continues(total, done, Success([])) ==> total == Success(done)
  {
    Seqs.Empty(done);
  }

  lemma ContinuesNext<T, E>(total: Result<seq<T>, E>, done: seq<T>, part: seq<T>, rest: Result<seq<T>, E>)
    requires Continues(total, done, if rest.Failure? then rest else Success(part + rest.value))
    ensures Continues(total, done + part, rest)
  {
    if rest.Success? {
      Seqs.Assoc(done, part, rest.value);
    }
  }

  lemma ContinuesFailed<T, E>(total: Result<seq<T>, E>, done: seq<T>, e: E)
    ensures Continues(total, done, Failure(e)) ==> total == Failure(e)
  {
  }
}
