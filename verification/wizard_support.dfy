/**
 * What the wizard pages share: the validation status a page's validator
 * returns (`ValidationStatus.ok`, `error`, `warning`) and the content
 * proposals of the connection and image combos, which offer every combo
 * item that contains the typed text.
 */
module WizardSupport {
  import opened JavaLang
  import Seqs

  datatype Status = Ok | Error(message: string) | Warning(message: string)

  /**
   * `getProposals` of the combos' content-proposal providers: the items
   * containing the typed text, in item order.
   */
  function Proposals(items: seq<string>, contents: string): (r: seq<string>)
    ensures forall x :: x in r <==> x in items && Contains(x, contents)
    ensures Seqs.IsSubsequence(r, items)
    ensures |r| == Seqs.Count(items, (item: string) => Contains(item, contents))
  {
    var matches := (item: string) => Contains(item, contents);
    Seqs.FilterIsSubsequence(items, matches);
    Seqs.Filter(items, matches)
  }

  /** Every string contains the empty string, so nothing typed proposes every item. */
  lemma {:induction false} EmptyTextProposesAll(items: seq<string>)
    ensures Proposals(items, "") == items
    decreases |items|
  {
    if |items| > 0 {
      EmptyTextProposesAll(items[1..]);
      assert OccursAt(items[0], "", 0);
    }
  }

  /** Typing more narrows the proposals: what a longer text proposes, its prefix proposes too. */
  lemma NarrowingProposals(items: seq<string>, typed: string, more: string)
    ensures forall x :: x in Proposals(items, typed + more) ==> x in Proposals(items, typed)
  {
    forall x | x in Proposals(items, typed + more)
      ensures x in Proposals(items, typed)
    {
      var i := IndexOf(x, typed + more);
      assert x[i..i + |typed|] == (typed + more)[..|typed|];
      assert OccursAt(x, typed, i);
    }
  }
}
