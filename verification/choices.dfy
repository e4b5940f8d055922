/** The platform's autocompletion choices, as both autocompletion handlers build them. */
module Choices {
  import opened Seqs

  /** An autocompletion choice: the label shown and the value submitted. */
  datatype Choice = Choice(name: string, value: string)

  /** `[app_commands.Choice(name=n, value=n) for n in names]` */
  function AsChoices(names: seq<string>): (r: seq<Choice>)
    ensures |r| == |names| && forall i :: 0 <= i < |names| ==> r[i] == Choice(names[i], names[i])
    decreases |names|
  {
    if |names| == 0 then []
    else
      var rest := AsChoices(names[1..]);
      assert forall i :: 1 <= i < |names| ==> names[i] == names[1..][i - 1];
      [Choice(names[0], names[0])] + rest
  }

  /** A choice whose label and value agree occurs as often as its name; any other never. */
  lemma {:induction false} ChoiceCount(names: seq<string>, c: Choice)
    ensures multiset(AsChoices(names))[c] == if c.name == c.value then multiset(names)[c.name] else 0
    decreases |names|
  {
    if |names| > 0 {
      assert names == [names[0]] + names[1..];
      assert multiset(names) == multiset([names[0]]) + multiset(names[1..]);
      ChoiceCount(names[1..], c);
    }
  }

  /** The choices of a subsequence of names form a subsequence of the choices. */
  lemma {:induction false} ChoicesOfSubsequence(a: seq<string>, b: seq<string>)
    requires IsSubsequence(a, b)
    ensures IsSubsequence(AsChoices(a), AsChoices(b))
    decreases |b|
  {
    if |a| > 0 {
      assert AsChoices(a)[1..] == AsChoices(a[1..]);
      assert AsChoices(b)[1..] == AsChoices(b[1..]);
      if a[0] == b[0] {
        ChoicesOfSubsequence(a[1..], b[1..]);
      } else {
        ChoicesOfSubsequence(a, b[1..]);
      }
    }
  }

  /** Offering the names that pass `p` keeps the order of `names` and offers each passing
      name exactly as often as it occurs there, and no other choice. */
  lemma FilteredChoices(names: seq<string>, p: string -> bool)
    ensures IsSubsequence(AsChoices(Filter(names, p)), AsChoices(names))
    ensures forall c :: multiset(AsChoices(Filter(names, p)))[c] == if p(c.name) then multiset(AsChoices(names))[c] else 0
  {
    ChoicesOfSubsequence(Filter(names, p), names);
    forall c
      ensures multiset(AsChoices(Filter(names, p)))[c] == if p(c.name) then multiset(AsChoices(names))[c] else 0
    {
      var kept := Filter(names, p);
      assert multiset(kept)[c.name] == if p(c.name) then multiset(names)[c.name] else 0;
      ChoiceCount(kept, c);
      ChoiceCount(names, c);
    }
  }
}
