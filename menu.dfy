/** The main menu: a cursor over three entries and the code the scene hands
    back when one is chosen (Shared/MenuScene.hpp, Shared/MenuScene.cpp,
    GeometryEngine/Shared/BaseScene.hpp). */
module MainMenu {

  const Play: int := 0
  const Options: int := 1
  const Exit: int := 2
  const First: int := Play
  const Last: int := Exit

  /** ReturnCodes shared by every scene; the scene's main loop runs while
      its code is still the default. */
  const DefaultCode: int := 0
  const ExitGameCode: int := 1
  /** MainMenuReturnCodes. */
  const PlayCode: int := 2
  const OptionsCode: int := 3

  /** The entry after one press.  `forward` moves to the next entry and
      wraps the last to the first; otherwise the cursor moves back and
      wraps the first to the last.  A value outside the menu matches no
      case and stays. */
  function Step(choice: int, forward: bool): (r: int)
    ensures First <= choice <= Last ==> First <= r <= Last
    ensures First <= choice <= Last ==> r == (choice + (if forward then 1 else 2)) % 3
    ensures !(First <= choice <= Last) ==> r == choice
  {
    if choice == Play then (if forward then choice + 1 else Last)
    else if choice == Options then (if forward then choice + 1 else choice - 1)
    else if choice == Exit then (if forward then First else choice - 1)
    else choice
  }

  /** The code handed back for an entry. */
  function CodeFor(choice: int): (r: int)
    ensures First <= choice <= Last ==> r != DefaultCode
  {
    if choice == Play then PlayCode
    else if choice == Options then OptionsCode
    else if choice == Exit then ExitGameCode
    else DefaultCode
  }

  /** A press in one direction is undone by a press in the other, and three
      presses in one direction come back to the start. */
  lemma StepInverse(choice: int, forward: bool)
    requires First <= choice <= Last
    ensures Step(Step(choice, forward), !forward) == choice
    ensures Step(Step(Step(choice, forward), forward), forward) == choice
  {
  }

  /** Each entry hands back its own code: the three codes are distinct. */
  lemma CodesDistinct(a: int, b: int)
    requires First <= a <= Last && First <= b <= Last && a != b
    ensures CodeFor(a) != CodeFor(b)
  {
  }

  class MenuScene {
    var choice: int
    var returnCode: int

    ghost predicate Valid()
      reads this
    {
      First <= choice <= Last
    }

    constructor ()
      ensures choice == Play && returnCode == DefaultCode && Valid()
    {
      choice := Play;
      returnCode := DefaultCode;
    }

    /** `value` true moves the cursor down the list, false up it. */
    method ChangeChoice(value: bool)
      requires Valid()
      modifies this`choice
      ensures Valid()
      ensures choice == Step(old(choice), value)
    {
      if choice == Play {
        if value {
          choice := choice + 1;
        } else {
          choice := Last;
        }
      } else if choice == Options {
        if value {
          choice := choice + 1;
        } else {
          choice := choice - 1;
        }
      } else if choice == Exit {
        if value {
          choice := First;
        } else {
          choice := choice - 1;
        }
      }
    }

    /** Choosing an entry ends the scene's loop with that entry's code. */
    method SelectChoice()
      requires Valid()
      modifies this`returnCode
      ensures returnCode == CodeFor(choice) && returnCode != DefaultCode
    {
      if choice == Play {
        returnCode := PlayCode;
      } else if choice == Options {
        returnCode := OptionsCode;
      } else if choice == Exit {
        returnCode := ExitGameCode;
      }
    }
  }
}
