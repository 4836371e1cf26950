/** The per-commit lint reports the commit linter hands back, and the
    search for the first commit whose report is invalid. How the linter
    decides validity is outside this model: reports are inputs. */
module Lint {

  /** One violated rule, known by its name (for example "type-enum"). */
  datatype RuleError = RuleError(name: string)

  /** The verdict on one commit message. */
  datatype LintReport = LintReport(valid: bool, errors: seq<RuleError>)

  /** The index of the first report that is not valid, or -1 when every
      report is valid (`findIndex` with the predicate "not valid"). */
  function FirstInvalid(reports: seq<LintReport>): (r: int)
    ensures -1 <= r < |reports|
    ensures r == -1 <==> forall i :: 0 <= i < |reports| ==> reports[i].valid
    ensures 0 <= r ==> !reports[r].valid && forall i :: 0 <= i < r ==> reports[i].valid
  {
    if |reports| == 0 then -1
    else if !reports[0].valid then 0
    else
      var k := FirstInvalid(reports[1..]);
      if k == -1 then -1 else k + 1
  }

  /** Any index that is invalid with only valid reports before it is the one
      the search finds: the first failure is unique. */
  lemma FirstInvalidUnique(reports: seq<LintReport>, i: nat)
    requires i < |reports| && !reports[i].valid
    requires forall j :: 0 <= j < i ==> reports[j].valid
    ensures FirstInvalid(reports) == i
  {
  }

  /** The search over a list cut in two halves is the search over the first
      half, falling back to the second half shifted by the first's length.
      Validating the halves separately (in any order) and combining the two
      searches this way therefore selects the same commit as one
      left-to-right scan. */
  lemma FirstInvalidConcat(a: seq<LintReport>, b: seq<LintReport>)
    ensures FirstInvalid(a + b) ==
      if FirstInvalid(a) != -1 then FirstInvalid(a)
      else if FirstInvalid(b) == -1 then -1
      else |a| + FirstInvalid(b)
  {
    var ab := a + b;
    var ia, ib := FirstInvalid(a), FirstInvalid(b);
    if ia != -1 {
      FirstInvalidUnique(ab, ia);
    } else if ib == -1 {
      assert forall i :: 0 <= i < |ab| ==> ab[i].valid by {
        forall i | 0 <= i < |ab| ensures ab[i].valid {
          if i >= |a| { assert ab[i] == b[i - |a|]; }
        }
      }
    } else {
      assert ab[|a| + ib] == b[ib];
      forall j | 0 <= j < |a| + ib ensures ab[j].valid {
        if j >= |a| { assert ab[j] == b[j - |a|]; }
      }
      FirstInvalidUnique(ab, |a| + ib);
    }
  }
}
