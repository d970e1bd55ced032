/** `ChoicesEnum.get_choices` from company/__init__.py: the (value, name)
    pairs of an enumeration, in the order the enumeration iterates. */
module Choices {

  /** One member of an enumeration as iteration yields it: its name and its value.
      Iteration yields the canonical members in definition order; aliases
      (members whose value repeats an earlier one) are not yielded. */
  datatype Member<V> = Member(name: string, value: V)

  /** Builds the choices list with a loop that appends one pair per member. */
  method GetChoices<V>(members: seq<Member<V>>) returns (choices: seq<(V, string)>)
    ensures |choices| == |members|
    ensures forall i :: 0 <= i < |members| ==> choices[i] == (members[i].value, members[i].name)
  {
    choices := [];
    for i := 0 to |members|
      invariant |choices| == i
      invariant forall j :: 0 <= j < i ==> choices[j] == (members[j].value, members[j].name)
    {
      choices := choices + [(members[i].value, members[i].name)];
    }
  }

  /** `ExampleEnum`: ChoiceA = "a", ChoiceB = "b". */
  const ExampleEnum: seq<Member<string>> := [Member("ChoiceA", "a"), Member("ChoiceB", "b")]

  /** The choices of `ExampleEnum`, value first. */
  method ExampleEnumChoices() returns (choices: seq<(string, string)>)
    ensures choices == [("a", "ChoiceA"), ("b", "ChoiceB")]
  {
    choices := GetChoices(ExampleEnum);
  }
}
