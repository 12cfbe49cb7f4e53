/** The answer parsing of the interactive prompts in scripts/load_models.py:
    `yes_or_no` and the menu of `user_wants_to_download_weights`. What the
    user types is a parameter; printing the prompts is not modelled. */
module Prompts {
  import opened Common

  /** `yes_or_no(prompt, default_yes)` given the line the user typed: an
      empty line stands for the default letter, and only the first character
      of the answer is looked at. Read independently of the default, an
      answer starting with y or Y is yes, one starting with n or N is no, and
      anything else, the empty line included, is the default. */
  function YesOrNo(typed: string, defaultYes: bool): (yes: bool)
    ensures typed != "" && typed[0] in {'y', 'Y'} ==> yes
    ensures typed != "" && typed[0] in {'n', 'N'} ==> !yes
    ensures (typed == "" || typed[0] !in {'y', 'Y', 'n', 'N'}) ==> yes == defaultYes
  {
    var response := if typed == "" then (if defaultYes then "y" else "n") else typed;
    if defaultYes then response[0] !in {'n', 'N'} else response[0] in {'y', 'Y'}
  }

  /** The three answers of the download menu. */
  datatype Selection = Recommended | Customized | Skip

  /** The letter each selection is chosen by, in either case. */
  function Letter(s: Selection): char {
    match s
    case Recommended => 'r'
    case Customized => 'c'
    case Skip => 's'
  }

  function Upper(c: char): char {
    if 'a' <= c <= 'z' then (c as int - 32) as char else c
  }

  /** One pass of the menu loop: the selection the typed line makes, or None
      when the question is asked again. A line chooses a selection exactly
      when it starts with that selection's letter, in either case; the empty
      line chooses the recommended set. */
  function ParseChoice(choice: string): (r: Option<Selection>)
    ensures forall s: Selection :: r == Some(s) <==>
              (choice == "" && s == Recommended) ||
              (choice != "" && (choice[0] == Letter(s) || choice[0] == Upper(Letter(s))))
    ensures r.None? <==> choice != "" && choice[0] !in {'r', 'R', 'c', 'C', 's', 'S'}
  {
    if |choice| == 0 || choice[0] in {'r', 'R'} then Some(Recommended)
    else if choice[0] in {'c', 'C'} then Some(Customized)
    else if choice[0] in {'s', 'S'} then Some(Skip)
    else None
  }

  /** `user_wants_to_download_weights`: asks until a line parses. `answers`
      are the lines the user types, in order; the result is the selection and
      the number of lines read, or None when the answers run out first. Running
      out stands for `input()` raising EOFError at the end of input, which
      leaves this function and is only caught by the script's `main`. */
  method UserWantsToDownloadWeights(answers: seq<string>) returns (selection: Option<Selection>, read: nat)
    ensures selection.Some? ==> 0 < read <= |answers| && ParseChoice(answers[read - 1]) == selection
    ensures selection.Some? ==> forall i :: 0 <= i < read - 1 ==> ParseChoice(answers[i]).None?
    ensures selection.None? ==> read == |answers| && forall i :: 0 <= i < |answers| ==> ParseChoice(answers[i]).None?
  {
    selection := None;
    read := 0;
    while selection.None? && read < |answers|
      invariant 0 <= read <= |answers|
      invariant selection.Some? ==> 0 < read && ParseChoice(answers[read - 1]) == selection
      invariant forall i :: 0 <= i < read && (selection.Some? ==> i < read - 1) ==> ParseChoice(answers[i]).None?
    {
      selection := ParseChoice(answers[read]);
      read := read + 1;
    }
  }
}
