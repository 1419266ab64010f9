/** The reverse-substitution proof of tools/reframe/verify_rename.py. */
module Rename {
  import opened Substitution

  const OLD_NAME := "CLAUDE.md"
  const NEW_NAME := "PROJECT_RULES.md"

  /** What the reframe applied. */
  function Forward(data: string): string {
    Replace(data, OLD_NAME, NEW_NAME)
  }

  /** `_reverse`: undo the rename. */
  function Reverse(data: string): string {
    Replace(data, NEW_NAME, OLD_NAME)
  }

  lemma NewNameIsUnbordered()
    ensures Unbordered(NEW_NAME)
  {
    assert |NEW_NAME| == 16 && NEW_NAME[0] == 'P';
    assert forall m :: 0 < m < 16 ==> NEW_NAME[m..][0] == NEW_NAME[m] != 'P';
  }

  lemma NewNameStartsOutside(m: nat)
    requires m < |OLD_NAME|
    ensures !(OLD_NAME[m..] <= NEW_NAME) && !(NEW_NAME <= OLD_NAME[m..])
  {
    assert NEW_NAME[0] == 'P' && OLD_NAME[m..][0] == OLD_NAME[m] != 'P';
  }

  lemma OldNameStartsOutside(m: nat)
    requires m < |NEW_NAME|
    ensures !(NEW_NAME[m..] <= OLD_NAME) && !(OLD_NAME <= NEW_NAME[m..])
  {
    assert OLD_NAME[0] == 'C' && NEW_NAME[m..][0] == NEW_NAME[m];
    assert NEW_NAME[m] == 'C' ==> m == 5 && NEW_NAME[m..][1] == 'T' && OLD_NAME[1] == 'L';
  }

  lemma NamesNeverOverlap()
    ensures NeverOverlap(NEW_NAME, OLD_NAME)
  {
    forall m | 0 <= m < |OLD_NAME|
      ensures !(OLD_NAME[m..] <= NEW_NAME) && !(NEW_NAME <= OLD_NAME[m..])
    {
      NewNameStartsOutside(m);
    }
    forall m | 0 <= m < |NEW_NAME|
      ensures !(NEW_NAME[m..] <= OLD_NAME) && !(OLD_NAME <= NEW_NAME[m..])
    {
      OldNameStartsOutside(m);
    }
  }

  /** Reversing reproduces the pre-change bytes exactly on the files that did not already hold the new
      name, and on no others. */
  lemma ReverseIsExactInverse(data: string)
    ensures Reverse(Forward(data)) == data <==> !Contains(data, NEW_NAME)
  {
    NewNameIsUnbordered();
    NamesNeverOverlap();
    SubstituteBackExactly(data, OLD_NAME, NEW_NAME);
  }

  lemma NamesExactly(data: string)
    ensures Forward(data) == Replace(data, "CLAUDE.md", "PROJECT_RULES.md")
    ensures Reverse(data) == Replace(data, "PROJECT_RULES.md", "CLAUDE.md")
  {
  }
}
