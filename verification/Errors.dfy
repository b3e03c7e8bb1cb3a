/** The error numbers that the library returns, negated. */
module Errors {
  const EIO: int := 5
  const EINVAL: int := 22

  /** The numbers of the host. */
  lemma ErrorNumbers()
    ensures EIO == 5 && EINVAL == 22
  {
  }
}
