/** The field validator the use-case layer fills in: a set of failed keys
    that only grows. */
module Validation {
  import opened Domain

  class Validator {
    /** The keys of every check that has failed so far. */
    var failed: set<Field>

    /** A validator with no failures recorded. */
    constructor ()
      ensures failed == {}
    {
      failed := {};
    }

    /** No check has failed. */
    predicate Valid()
      reads this
    {
      failed == {}
    }

    /** Records `key` as failed unless `ok` holds; a recorded key is never removed. */
    method Check(ok: bool, key: Field)
      modifies this
      ensures failed == if ok then old(failed) else old(failed) + {key}
      ensures old(failed) <= failed
    {
      if !ok {
        failed := failed + {key};
      }
    }
  }
}
