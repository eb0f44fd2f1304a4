/** The options screen: a cursor over four entries, and the shadow,
    fullscreen and multisampling settings it toggles and stores in the
    OPTIONS attribute file (Shared/OptionsScene.hpp, Shared/OptionsScene.cpp,
    Shared/GameHelpers.hpp). */
module OptionsMenu {
  import opened Util
  import opened Attributes
  import opened Decimal

  const Shadows: int := 0
  const Multisampling: int := 1
  const Fullscreen: int := 2
  const ReturnToMainMenu: int := 3
  const First: int := Shadows
  const Last: int := ReturnToMainMenu

  const DefaultCode: int := 0
  const MainMenuCode: int := 6

  /** Keys of the OPTIONS file. */
  const MultisamplingKey: string := "MULTISAMPLING"
  const ShadowsKey: string := "SHADOWS"
  const FullscreenKey: string := "FULLSCREEN"

  /** Highest multisampling rate on Windows and on other systems. */
  const WindowsRateMax: int := 16
  const OtherRateMax: int := 8

  /** The entry after one press: `forward` moves down and wraps the last
      entry to the first, otherwise the cursor moves up and wraps the first
      to the last; a value outside the menu stays. */
  function Step(choice: int, forward: bool): (r: int)
    ensures First <= choice <= Last ==> First <= r <= Last
    ensures First <= choice <= Last ==> r == (choice + (if forward then 1 else 3)) % 4
    ensures !(First <= choice <= Last) ==> r == choice
  {
    if choice == Shadows then (if forward then choice + 1 else Last)
    else if choice == Multisampling || choice == Fullscreen then (if forward then choice + 1 else choice - 1)
    else if choice == ReturnToMainMenu then (if forward then First else choice - 1)
    else choice
  }

  /** Up and down undo each other, and four presses one way come back. */
  lemma StepInverse(choice: int, forward: bool)
    requires First <= choice <= Last
    ensures Step(Step(choice, forward), !forward) == choice
    ensures Step(Step(Step(Step(choice, forward), forward), forward), forward) == choice
  {
  }

  /** The multisampling rate after one selection: off goes to 1, the
      highest rate goes back to off, any other rate doubles (in a 32-bit
      `int`). */
  function NextRate(rate: int, rateMax: int): int {
    if rate == 0 then 1 else if rate == rateMax then 0 else Wrap32(rate * 2)
  }

  /** What one selection does to the rate: off goes to 1, the highest rate
      to off, and any other rate doubles exactly when the double fits in a
      32-bit `int`; the result always fits. */
  lemma NextRateSteps(rate: int, rateMax: int)
    ensures rate == 0 ==> NextRate(rate, rateMax) == 1
    ensures rate != 0 && rate == rateMax ==> NextRate(rate, rateMax) == 0
    ensures rate != 0 && rate != rateMax && -TwoTo31 <= 2 * rate < TwoTo31 ==> NextRate(rate, rateMax) == 2 * rate
    ensures -TwoTo31 <= NextRate(rate, rateMax) < TwoTo31
  {
  }

  predicate PowerOfTwo(n: int)
    decreases if n < 0 then 0 else n
  {
    n == 1 || (n > 1 && n % 2 == 0 && PowerOfTwo(n / 2))
  }

  /** The rates the cycle visits: off, or a power of two up to the highest
      rate. */
  predicate IsRate(r: int, rateMax: int) {
    r == 0 || (PowerOfTwo(r) && r <= rateMax)
  }

  /** Below a larger power of two, a power of two can double and stay at
      most that bound. */
  lemma {:induction false} DoubleStaysBelow(r: int, m: int)
    requires PowerOfTwo(r) && PowerOfTwo(m) && r < m
    ensures 2 * r <= m
    decreases r
  {
    if r != 1 {
      DoubleStaysBelow(r / 2, m / 2);
    }
  }

  /** The rate cycle never leaves the valid rates when the highest rate is
      a power of two below 2^30. */
  lemma {:induction false} NextRateClosed(r: int, rateMax: int)
    requires PowerOfTwo(rateMax) && rateMax < 0x4000_0000 && IsRate(r, rateMax)
    ensures IsRate(NextRate(r, rateMax), rateMax)
  {
    if r != 0 && r != rateMax {
      DoubleStaysBelow(r, rateMax);
      assert (2 * r) / 2 == r;
    }
  }

  /** Away from Windows the selections run 0, 1, 2, 4, 8 and back to 0; on
      Windows the cycle continues to 16 first. */
  lemma RateCycles()
    ensures NextRate(0, OtherRateMax) == 1 && NextRate(1, OtherRateMax) == 2
    ensures NextRate(2, OtherRateMax) == 4 && NextRate(4, OtherRateMax) == 8
    ensures NextRate(8, OtherRateMax) == 0
    ensures NextRate(8, WindowsRateMax) == 16 && NextRate(16, WindowsRateMax) == 0
  {
  }

  /** The setting a file stores under a key, as a fresh parser reads it. */
  function Setting(file: Option<string>, key: string): Option<string> {
    Lookup(ToMap(Parse(file)), key)
  }

  class OptionsScene {
    const parser: AttributeParser
    /** The highest multisampling rate of the platform. */
    const rateMax: int
    /** The rate the window was created with. */
    const initialMultisampling: int
    var choice: int
    var useShadows: bool
    /** The window's fullscreen flag. */
    var fullscreen: bool
    /** Whether the "restart to apply" notice shows. */
    var renderEffect: bool
    var multisampleText: string
    var shadowStatus: string
    var fullscreenStatus: string
    var returnCode: int

    ghost predicate Valid()
      reads this, parser
    {
      First <= choice <= Last && parser.Valid()
    }

    /** Opens the OPTIONS file, starts on the last entry with shadows on,
        and fills in the three status texts. */
    constructor (path: string, file: Option<string>, rateMax: int, initialMultisampling: int, fullscreen: bool)
      ensures fresh(parser) && parser.path == path && parser.file == file
      ensures parser.attributeList == Parse(file)
      ensures this.rateMax == rateMax && this.initialMultisampling == initialMultisampling
      ensures this.fullscreen == fullscreen && choice == Last && useShadows
      ensures fullscreenStatus == if fullscreen then "On" else "Off"
      ensures Some(shadowStatus) == Setting(file, ShadowsKey) || (shadowStatus == "" && Setting(file, ShadowsKey).None?)
      ensures var v := parser.GetAttribute(MultisamplingKey);
              && multisampleText == (if v == "0" then "Off" else v)
              && renderEffect == (Stoi(v).Some? && Stoi(v).value != initialMultisampling)
      ensures returnCode == DefaultCode
      ensures Valid()
    {
      parser := new AttributeParser(path, file);
      this.rateMax := rateMax;
      this.initialMultisampling := initialMultisampling;
      this.fullscreen := fullscreen;
      choice := Last;
      useShadows := true;
      renderEffect := false;
      multisampleText := "";
      shadowStatus := "";
      fullscreenStatus := "";
      returnCode := DefaultCode;
      new;
      ShowSettings();
    }

    /** The three status updates of the constructor, with the restart
        notice still off. */
    method ShowSettings()
      requires !renderEffect
      modifies this`fullscreenStatus, this`multisampleText, this`renderEffect, this`shadowStatus
      ensures fullscreenStatus == if fullscreen then "On" else "Off"
      ensures Some(shadowStatus) == Lookup(ToMap(parser.attributeList), ShadowsKey)
              || (shadowStatus == "" && ShadowsKey !in ToMap(parser.attributeList))
      ensures var v := parser.GetAttribute(MultisamplingKey);
              && multisampleText == (if v == "0" then "Off" else v)
              && renderEffect == (Stoi(v).Some? && Stoi(v).value != initialMultisampling)
    {
      UpdateFullscreenStatus();
      UpdateMultisampleValue();
      UpdateShadowsValue();
    }

    method ChangeChoice(value: bool)
      requires Valid()
      modifies this`choice
      ensures Valid() && choice == Step(old(choice), value)
    {
      if choice == Shadows {
        if value {
          choice := choice + 1;
        } else {
          choice := Last;
        }
      } else if choice == Multisampling || choice == Fullscreen {
        if value {
          choice := choice + 1;
        } else {
          choice := choice - 1;
        }
      } else if choice == ReturnToMainMenu {
        if value {
          choice := First;
        } else {
          choice := choice - 1;
        }
      }
    }

    method UpdateFullscreenStatus()
      modifies this`fullscreenStatus
      ensures fullscreenStatus == if fullscreen then "On" else "Off"
    {
      fullscreenStatus := if fullscreen then "On" else "Off";
    }

    method UpdateShadowsValue()
      modifies this`shadowStatus
      ensures shadowStatus == parser.GetAttribute(ShadowsKey)
      ensures Some(shadowStatus) == Lookup(ToMap(parser.attributeList), ShadowsKey)
              || (shadowStatus == "" && ShadowsKey !in ToMap(parser.attributeList))
    {
      shadowStatus := parser.GetAttribute(ShadowsKey);
    }

    /** Shows "Off" for a stored "0" and the stored text otherwise, and
        raises the restart notice when the stored rate differs from the
        window's.  A stored text std::stoi rejects makes it throw; the
        notice is then left as it was. */
    method UpdateMultisampleValue()
      modifies this`multisampleText, this`renderEffect
      ensures var v := parser.GetAttribute(MultisamplingKey);
              && multisampleText == (if v == "0" then "Off" else v)
              && (Stoi(v).Some? ==> renderEffect == (Stoi(v).value != initialMultisampling))
              && (Stoi(v).None? ==> renderEffect == old(renderEffect))
    {
      var stored := parser.GetAttribute(MultisamplingKey);
      multisampleText := if stored == "0" then "Off" else stored;
      var rate := Stoi(stored);
      if rate.None? {
        return;
      }
      renderEffect := rate.value != initialMultisampling;
    }

    /** The per-frame re-read of the shadow setting from the OPTIONS file:
        shadows are on exactly when the file says "On". */
    method ReadShadowSetting()
      modifies this`useShadows
      ensures useShadows == (Setting(parser.file, ShadowsKey) == Some("On"))
    {
      var reader := new AttributeParser(parser.path, parser.file);
      useShadows := reader.GetAttribute(ShadowsKey) == "On";
    }

    /** Acts on the entry under the cursor. */
    method SelectChoice()
      requires Valid()
      modifies this`returnCode, this`useShadows, this`shadowStatus, this`fullscreen, this`fullscreenStatus
      modifies this`multisampleText, this`renderEffect, parser`file, parser`attributeList
      ensures Valid() && choice == old(choice)
      ensures returnCode == if old(choice) == ReturnToMainMenu then MainMenuCode else old(returnCode)
      ensures old(choice) != Shadows ==> useShadows == old(useShadows) && shadowStatus == old(shadowStatus)
      ensures old(choice) != Fullscreen ==> fullscreen == old(fullscreen) && fullscreenStatus == old(fullscreenStatus)
      ensures old(choice) != Multisampling ==>
                multisampleText == old(multisampleText) && renderEffect == old(renderEffect)
      ensures old(choice) == ReturnToMainMenu ==>
                parser.file == old(parser.file) && parser.attributeList == old(parser.attributeList)
      ensures old(choice) == Shadows ==>
                && useShadows == !old(useShadows)
                && shadowStatus == (if useShadows then "On" else "Off")
                && Setting(parser.file, ShadowsKey) == Some(shadowStatus)
                && ToMap(parser.attributeList) == old(ToMap(parser.attributeList))[ShadowsKey := shadowStatus]
      ensures old(choice) == Fullscreen ==>
                && fullscreen == !old(fullscreen)
                && fullscreenStatus == (if fullscreen then "On" else "Off")
                && Setting(parser.file, FullscreenKey) == Some(fullscreenStatus)
                && ToMap(parser.attributeList) == old(ToMap(parser.attributeList))[FullscreenKey := fullscreenStatus]
      ensures old(choice) == Multisampling && Stoi(old(parser.GetAttribute(MultisamplingKey))).None? ==>
                && parser.file == old(parser.file) && parser.attributeList == old(parser.attributeList)
                && multisampleText == old(multisampleText) && renderEffect == old(renderEffect)
      ensures old(choice) == Multisampling && Stoi(old(parser.GetAttribute(MultisamplingKey))).Some? ==>
                var rate := NextRate(Stoi(old(parser.GetAttribute(MultisamplingKey))).value, rateMax);
                && Setting(parser.file, MultisamplingKey) == Some(IntToString(rate))
                && ToMap(parser.attributeList) == old(ToMap(parser.attributeList))[MultisamplingKey := IntToString(rate)]
                && Stoi(parser.GetAttribute(MultisamplingKey)) == Some(rate)
                && multisampleText == (if rate == 0 then "Off" else IntToString(rate))
                && renderEffect == (rate != initialMultisampling)
    {
      if choice == ReturnToMainMenu {
        returnCode := MainMenuCode;
      } else if choice == Shadows {
        ToggleShadows();
      } else if choice == Fullscreen {
        ToggleFullscreen();
      } else if choice == Multisampling {
        CycleMultisampling();
      }
    }

    /** The SHADOWS entry: stores the opposite of the current setting and
        shows what is stored. */
    method ToggleShadows()
      requires Valid()
      modifies this`useShadows, this`shadowStatus, parser`file, parser`attributeList
      ensures Valid()
      ensures useShadows == !old(useShadows)
      ensures shadowStatus == (if useShadows then "On" else "Off")
      ensures Setting(parser.file, ShadowsKey) == Some(shadowStatus)
      ensures ToMap(parser.attributeList) == old(ToMap(parser.attributeList))[ShadowsKey := shadowStatus]
    {
      var value := if useShadows then "Off" else "On";
      StoreSetting(ShadowsKey, value);
      useShadows := !useShadows;
      UpdateShadowsValue();
      assert shadowStatus == value;
    }

    /** The FULLSCREEN entry: stores the opposite of the window's flag, flips
        the flag and shows it. */
    method ToggleFullscreen()
      requires Valid()
      modifies this`fullscreen, this`fullscreenStatus, parser`file, parser`attributeList
      ensures Valid()
      ensures fullscreen == !old(fullscreen)
      ensures fullscreenStatus == (if fullscreen then "On" else "Off")
      ensures Setting(parser.file, FullscreenKey) == Some(fullscreenStatus)
      ensures ToMap(parser.attributeList) == old(ToMap(parser.attributeList))[FullscreenKey := fullscreenStatus]
    {
      var value := if fullscreen then "Off" else "On";
      StoreSetting(FullscreenKey, value);
      fullscreen := !fullscreen;
      UpdateFullscreenStatus();
      assert fullscreenStatus == value;
    }

    /** The MULTISAMPLING entry: stores the next rate of the cycle and
        refreshes its text and the restart notice.  A stored rate std::stoi
        rejects makes it throw before anything changes. */
    method CycleMultisampling()
      requires Valid()
      modifies this`multisampleText, this`renderEffect, parser`file, parser`attributeList
      ensures Valid()
      ensures Stoi(old(parser.GetAttribute(MultisamplingKey))).None? ==>
                parser.file == old(parser.file) && parser.attributeList == old(parser.attributeList)
                && multisampleText == old(multisampleText) && renderEffect == old(renderEffect)
      ensures Stoi(old(parser.GetAttribute(MultisamplingKey))).Some? ==>
                var rate := NextRate(Stoi(old(parser.GetAttribute(MultisamplingKey))).value, rateMax);
                && Setting(parser.file, MultisamplingKey) == Some(IntToString(rate))
                && ToMap(parser.attributeList) == old(ToMap(parser.attributeList))[MultisamplingKey := IntToString(rate)]
                && Stoi(parser.GetAttribute(MultisamplingKey)) == Some(rate)
                && multisampleText == (if rate == 0 then "Off" else IntToString(rate))
                && renderEffect == (rate != initialMultisampling)
    {
      var parsed := Stoi(parser.GetAttribute(MultisamplingKey));
      if parsed.None? {
        return;
      }
      var rate := parsed.value;
      StoreNextRate(rate);
      StoiIntToString(NextRate(rate, rateMax));
      UpdateMultisampleValue();
    }

    /** Stores the rate that follows `rate` in the cycle, as its decimal
        text. */
    method StoreNextRate(rate: int)
      requires Valid()
      modifies parser`file, parser`attributeList
      ensures Valid()
      ensures Setting(parser.file, MultisamplingKey) == Some(IntToString(NextRate(rate, rateMax)))
      ensures parser.GetAttribute(MultisamplingKey) == IntToString(NextRate(rate, rateMax))
      ensures ToMap(parser.attributeList)
              == old(ToMap(parser.attributeList))[MultisamplingKey := IntToString(NextRate(rate, rateMax))]
    {
      var newValue := "";
      if rate == 0 {
        newValue := "1";
      } else if rate == rateMax {
        newValue := "0";
      } else {
        newValue := IntToString(Wrap32(rate * 2));
      }
      assert newValue == IntToString(NextRate(rate, rateMax));
      StoreSetting(MultisamplingKey, newValue);
    }

    /** `change_attribute` with one of the option keys: afterwards the
        parser and the file both map the key to the value. */
    method StoreSetting(key: string, value: string)
      requires parser.Valid() && GoodKey(key) && GoodValue(value)
      modifies parser`file, parser`attributeList
      ensures parser.Valid()
      ensures parser.GetAttribute(key) == value
      ensures parser.attributeList == Parse(parser.file)
      ensures Setting(parser.file, key) == Some(value)
      ensures ToMap(parser.attributeList) == old(ToMap(parser.attributeList))[key := value]
    {
      ghost var before := parser.attributeList;
      parser.ChangeAttribute(key, value);
      ChangeSetsValue(before, key, value);
    }
  }
}
