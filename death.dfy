/** The death screen: the player types a name of up to six characters,
    submits the score to the LEADERBOARD attribute file and sees the five
    best scores (Shared/DeathScene.hpp, Shared/DeathScene.cpp, the key map of
    GeometryEngine/Shared/EngineHeader.hpp and the comparator of
    Shared/GameHelpers.hpp). */
module Death {
  import opened Util
  import opened Attributes
  import opened Decimal

  const MaxCharCount: nat := 6
  /** The name shown before anything is typed. */
  const Placeholder: string := "_"
  /** The number of leaderboard rows on screen. */
  const BoardRows: nat := 5

  const LeaveScene: int := -1
  const DefaultCode: int := 0
  const MainMenuCode: int := 7

  /** GLFW key and action codes the scene reacts to. */
  const KeyUnknown: int := -1
  const Key1: int := 49
  const Key2: int := 50
  const KeyEnter: int := 257
  const KeyBackspace: int := 259
  const KeyDown: int := 264
  const KeyUp: int := 265
  const Release: int := 0
  const Press: int := 1
  const Repeat: int := 2

  datatype Selection = Username | Done

  function Toggle(s: Selection): (r: Selection)
    ensures r != s
  {
    if s == Username then Done else Username
  }

  /** The character a key types: letters and digits as themselves and
      eight punctuation keys (the slash key types a backslash and the
      backslash key a slash, as the engine's table has them); `None` for
      any other key. */
  function KeyChar(key: int): (r: Option<char>)
    ensures r.Some? ==> r.value != ':' && r.value != '\n' && r.value != '_'
    ensures 65 <= key <= 90 || 48 <= key <= 57 ==> r == Some(key as char)
  {
    if 65 <= key <= 90 || 48 <= key <= 57 then Some(key as char)
    else if key == 45 then Some('-')
    else if key == 61 then Some('=')
    else if key == 59 then Some(';')
    else if key == 39 then Some('\'')
    else if key == 47 then Some('\\')
    else if key == 44 then Some(',')
    else if key == 46 then Some('.')
    else if key == 92 then Some('/')
    else None
  }

  /** No two keys type the same character. */
  lemma KeyCharInjective(a: int, b: int)
    requires KeyChar(a).Some? && KeyChar(a) == KeyChar(b)
    ensures a == b
  {
  }

  /** A name the screen can show: the placeholder, or one to six typed
      characters, none of them a separator of the attribute format. */
  predicate GoodName(u: string) {
    && 1 <= |u| <= MaxCharCount
    && ':' !in u && '\n' !in u
    && (u == Placeholder || '_' !in u)
  }

  /** `update_username`: the typed character replaces the placeholder or
      goes at the end. */
  function Typed(u: string, c: char): (r: string)
    ensures u == Placeholder ==> r == [c]
    ensures u != Placeholder ==> |r| == |u| + 1 && r[..|u|] == u && r[|u|] == c
  {
    (if u == Placeholder then "" else u) + [c]
  }

  /** Backspace drops the last character; a name left empty shows the
      placeholder again. */
  function Erased(u: string): (r: string)
    ensures |u| > 1 ==> r == u[..|u| - 1]
    ensures |u| <= 1 ==> r == Placeholder
  {
    var shorter := if |u| == 0 then u else u[..|u| - 1];
    if |shorter| == 0 then Placeholder else shorter
  }

  /** The name after a key while typing: backspace erases, a key of the
      table types its character while the name is shorter than the limit,
      every other key leaves it. */
  function Edited(u: string, key: int): (r: string)
    ensures key == KeyDown || key == KeyUp || key == KeyEnter ==> r == u
    ensures r != u ==> key == KeyBackspace || (KeyChar(key).Some? && |u| < MaxCharCount)
    ensures key != KeyBackspace && r != u ==> |r| == |u| + 1 || u == Placeholder
  {
    if key == KeyBackspace then Erased(u)
    else if key == KeyDown || key == KeyUp || key == KeyEnter then u
    else if |u| < MaxCharCount && KeyChar(key).Some? then Typed(u, KeyChar(key).value)
    else u
  }

  /** Typing and erasing keep the name showable. */
  lemma EditedGood(u: string, key: int)
    requires GoodName(u)
    ensures GoodName(Edited(u, key))
  {
    if key == KeyBackspace && |u| > 1 {
      assert forall c | c in Erased(u) :: c in u;
    } else if key != KeyDown && key != KeyUp && key != KeyEnter && key != KeyBackspace
              && |u| < MaxCharCount && KeyChar(key).Some? {
      var r := Typed(u, KeyChar(key).value);
      assert forall c | c in r :: c == KeyChar(key).value || c in u;
    }
  }

  /** A typed character followed by a backspace restores the name. */
  lemma EraseUndoesType(u: string, c: char)
    requires GoodName(u) && c != '_'
    ensures Erased(Typed(u, c)) == u
  {
    if u != Placeholder {
      assert Typed(u, c)[..|u|] == u;
    }
  }

  /** The leaderboard a file holds, name to score text. */
  function Board(file: Option<string>): map<string, string> {
    ToMap(Parse(file))
  }

  /** Every stored score is a number std::stoi accepts. */
  predicate AllNumeric(e: seq<Entry>) {
    forall i | 0 <= i < |e| :: Stoi(e[i].1).Some?
  }

  /** `shown` is the ranking a board gives: its best scores, five at most,
      best first, each one as the board stores it.  It exists only when
      std::stoi accepts every stored score. */
  ghost predicate ShowsTopOf(shown: seq<(string, int)>, e: seq<Entry>) {
    && AllNumeric(e)
    && var scores := ScoreList(e);
    && NonIncreasing(shown)
    && |shown| == (if |scores| < BoardRows then |scores| else BoardRows)
    && multiset(shown) <= multiset(scores)
    && (forall x, j | x in scores && x !in shown && 0 <= j < |shown| :: x.1 <= shown[j].1)
    && (forall x | x in shown :: x.0 in ToMap(e) && Stoi(ToMap(e)[x.0]) == Some(x.1))
  }

  /** The name and score pairs, in key order, that `load_stats` builds. */
  function ScoreList(e: seq<Entry>): (r: seq<(string, int)>)
    requires AllNumeric(e)
    ensures |r| == |e|
    ensures forall i | 0 <= i < |e| :: r[i] == (e[i].0, Stoi(e[i].1).value)
  {
    seq(|e|, i requires 0 <= i < |e| => (e[i].0, Stoi(e[i].1).value))
  }

  /** Every pair of the score list is a name of the board with the score
      its stored text denotes. */
  lemma ScoreListFaithful(e: seq<Entry>, x: (string, int))
    requires Sorted(e) && AllNumeric(e) && x in ScoreList(e)
    ensures x.0 in ToMap(e) && Stoi(ToMap(e)[x.0]) == Some(x.1)
  {
    var s := ScoreList(e);
    var i :| 0 <= i < |s| && s[i] == x;
    ToMapAt(e, i);
  }

  /** Scores never rise down the list (GreaterSecondPairSort). */
  predicate NonIncreasing(s: seq<(string, int)>) {
    forall i, j | 0 <= i < j < |s| :: s[i].1 >= s[j].1
  }

  /** Puts x into a list before its first smaller-or-equal score. */
  function InsertByScore(s: seq<(string, int)>, x: (string, int)): (r: seq<(string, int)>)
    ensures |r| == |s| + 1 && multiset(r) == multiset(s) + multiset{x}
    ensures r[0] == x || (s != [] && r[0] == s[0])
  {
    if s == [] || x.1 >= s[0].1 then [x] + s
    else
      assert s == [s[0]] + s[1..];
      [s[0]] + InsertByScore(s[1..], x)
  }

  /** Inserting keeps a non-increasing list non-increasing. */
  lemma {:induction false} InsertByScoreSorted(s: seq<(string, int)>, x: (string, int))
    requires NonIncreasing(s)
    ensures NonIncreasing(InsertByScore(s, x))
  {
    if s != [] && x.1 < s[0].1 {
      InsertByScoreSorted(s[1..], x);
      var rest := InsertByScore(s[1..], x);
      var r := [s[0]] + rest;
      forall i, j | 0 <= i < j < |r|
        ensures r[i].1 >= r[j].1
      {
        if i == 0 {
          assert r[j] in multiset(rest);
          assert r[j] == x || r[j] in multiset(s[1..]);
        }
      }
    }
  }

  /** `std::sort` with the descending-score comparator, as an insertion
      sort: the result is a non-increasing rearrangement of the input.  The
      standard sort does not fix the order of equal scores, and neither does
      this contract. */
  method SortByScore(s: seq<(string, int)>) returns (r: seq<(string, int)>)
    ensures NonIncreasing(r) && multiset(r) == multiset(s) && |r| == |s|
  {
    r := [];
    var i := 0;
    while i < |s|
      invariant 0 <= i <= |s|
      invariant NonIncreasing(r) && multiset(r) == multiset(s[..i])
    {
      assert s[..i + 1] == s[..i] + [s[i]];
      InsertByScoreSorted(r, s[i]);
      r := InsertByScore(r, s[i]);
      i := i + 1;
    }
    assert s[..i] == s;
    assert |r| == |multiset(r)| == |multiset(s)| == |s|;
  }

  /** The rows a ranking shows: its first five, or all of it when shorter. */
  function TopRows(sorted: seq<(string, int)>): (r: seq<(string, int)>)
    ensures |r| == if |sorted| < BoardRows then |sorted| else BoardRows
    ensures r == sorted[..|r|]
  {
    if |sorted| < BoardRows then sorted else sorted[..BoardRows]
  }

  /** The rows shown are the best scores: each is at least every score left
      off the board. */
  lemma TopRowsBest(sorted: seq<(string, int)>, x: (string, int), j: nat)
    requires NonIncreasing(sorted) && j < |TopRows(sorted)|
    requires x in sorted && x !in TopRows(sorted)
    ensures x.1 <= TopRows(sorted)[j].1
  {
    var top := TopRows(sorted);
    var k :| 0 <= k < |sorted| && sorted[k] == x;
    assert k >= |top|;
  }

  /** The shown rows are taken from the ranking. */
  lemma TopRowsTaken(sorted: seq<(string, int)>)
    ensures multiset(TopRows(sorted)) <= multiset(sorted)
  {
    var top := TopRows(sorted);
    assert sorted == top + sorted[|top|..];
  }

  /** Reads every stored score with std::stoi, in key order; `None` where
      one of them makes it throw. */
  method ReadScores(entries: seq<Entry>) returns (scores: Option<seq<(string, int)>>)
    ensures scores.Some? <==> AllNumeric(entries)
    ensures scores.Some? ==> scores.value == ScoreList(entries)
  {
    var list := [];
    var i := 0;
    while i < |entries|
      invariant 0 <= i <= |entries| && |list| == i
      invariant forall j | 0 <= j < i :: Stoi(entries[j].1).Some? && list[j] == (entries[j].0, Stoi(entries[j].1).value)
    {
      var parsed := Stoi(entries[i].1);
      if parsed.None? {
        return None;
      }
      list := list + [(entries[i].0, parsed.value)];
      i := i + 1;
    }
    scores := Some(list);
  }

  class DeathScene {
    /** The text of the LEADERBOARD file; `None` while it does not exist. */
    var leaderboardFile: Option<string>
    const leaderboardPath: string
    var username: string
    var selection: Selection
    var typing: bool
    /** The unsigned 32-bit score. */
    var score: nat
    var scoreText: string
    var returnCode: int
    /** The ranking on screen, best first. */
    var shown: seq<(string, int)>

    ghost predicate Valid()
      reads this
    {
      GoodName(username) && score < TwoTo32
    }

    constructor (leaderboardPath: string, leaderboardFile: Option<string>)
      ensures this.leaderboardPath == leaderboardPath && this.leaderboardFile == leaderboardFile
      ensures username == Placeholder && selection == Username && typing
      ensures score == 0 && scoreText == "Score: 0" && returnCode == DefaultCode && shown == []
      ensures Valid()
    {
      this.leaderboardPath := leaderboardPath;
      this.leaderboardFile := leaderboardFile;
      username := Placeholder;
      selection := Username;
      typing := true;
      score := 0;
      scoreText := "Score: 0";
      returnCode := DefaultCode;
      shown := [];
    }

    method SetScore(newScore: nat)
      requires Valid() && newScore < TwoTo32
      modifies this`score, this`scoreText
      ensures Valid() && score == newScore
      ensures scoreText == "You scored: " + IntToString(newScore)
    {
      score := newScore;
      scoreText := "You scored: " + IntToString(score);
    }

    method UpdateUsername(c: char)
      modifies this`username
      ensures username == Typed(old(username), c)
    {
      var current := username;
      if current == Placeholder {
        current := "";
      }
      current := current + [c];
      username := current;
    }

    /** Writes the score under the player's name: added when the board has
        no such name, changed otherwise.  Either way the board afterwards
        maps the name to the score and keeps every other entry. */
    method SubmitScore()
      requires Valid()
      modifies this`leaderboardFile
      ensures Board(leaderboardFile) == Board(old(leaderboardFile))[username := IntToString(score)]
    {
      var parser := new AttributeParser(leaderboardPath, leaderboardFile);
      ghost var before := parser.attributeList;
      var value := IntToString(score);
      if parser.GetAttribute(username) == "" {
        if username in ToMap(before) {
          StoredValueGood(before, username);
        }
        AddNeverOverwrites(before, username, value);
        parser.AddAttribute(username, value);
      } else {
        ChangeSetsValue(before, username, value);
        parser.ChangeAttribute(username, value);
      }
      leaderboardFile := parser.file;
    }

    /** Reads the board, creating an empty file when there is none, and
        shows its five best scores.  A stored score std::stoi rejects makes
        it throw; the ranking on screen is then left as it was. */
    method LoadStats()
      modifies this`leaderboardFile, this`shown
      ensures leaderboardFile == if old(leaderboardFile).None? then Some("") else old(leaderboardFile)
      ensures !AllNumeric(Parse(old(leaderboardFile))) ==> shown == old(shown)
      ensures AllNumeric(Parse(old(leaderboardFile))) ==> ShowsTopOf(shown, Parse(old(leaderboardFile)))
    {
      var parser := new AttributeParser(leaderboardPath, leaderboardFile);
      parser.MakeFile();
      leaderboardFile := parser.file;
      var entries := parser.attributeList;
      var read := ReadScores(entries);
      if read.None? {
        return;
      }
      var scores := read.value;
      var sorted := SortByScore(scores);
      shown := TopRows(sorted);
      ShownFromBoard(entries, sorted);
    }

    /** Keys while the scene has focus.  Key 2 leaves the scene.  While the
        name is being typed, backspace and the keys of the table edit it, up
        and down switch between the name and DONE, and enter on DONE
        submits the score and shows the board; afterwards enter returns to
        the main menu. */
    method KeyCallback(key: int, action: int)
      requires Valid()
      modifies this
      ensures Valid()
      ensures key == KeyUnknown || (action != Press && action != Repeat) ==>
                && username == old(username) && selection == old(selection) && typing == old(typing)
                && returnCode == old(returnCode) && leaderboardFile == old(leaderboardFile)
      ensures key != KeyUnknown && (action == Press || action == Repeat) ==>
                && returnCode == (if key == Key2 then LeaveScene
                                  else if !old(typing) && key == KeyEnter then MainMenuCode
                                  else old(returnCode))
                && username == (if old(typing) then Edited(old(username), key) else old(username))
                && selection == (if old(typing) && (key == KeyDown || key == KeyUp) then Toggle(old(selection)) else old(selection))
      ensures key != KeyUnknown && (action == Press || action == Repeat) && old(typing)
              && key == KeyEnter && old(selection) == Done ==>
                && !typing
                && scoreText == old(username) + " scored: " + IntToString(score)
                && Board(leaderboardFile) == Board(old(leaderboardFile))[username := IntToString(score)]
                && (AllNumeric(Parse(leaderboardFile)) ==> ShowsTopOf(shown, Parse(leaderboardFile)))
                && (!AllNumeric(Parse(leaderboardFile)) ==> shown == old(shown))
      ensures !(key != KeyUnknown && (action == Press || action == Repeat) && old(typing)
                && key == KeyEnter && old(selection) == Done) ==>
                && typing == old(typing) && leaderboardFile == old(leaderboardFile)
                && shown == old(shown) && scoreText == old(scoreText)
      ensures score == old(score)
    {
      if key == KeyUnknown {
        return;
      }
      if action == Press || action == Repeat {
        if key == Key2 {
          returnCode := LeaveScene;
        }
        if typing {
          EditedGood(username, key);
          if key == KeyBackspace {
            username := Erased(username);
          } else if key == KeyDown || key == KeyUp {
            selection := Toggle(selection);
          } else if key == KeyEnter {
            if selection == Done {
              FinishEntry();
            }
          } else if |username| < MaxCharCount && KeyChar(key).Some? {
            UpdateUsername(KeyChar(key).value);
          }
        } else if key == KeyEnter {
          returnCode := MainMenuCode;
        }
      }
    }

    /** Enter on DONE: shows the name with the score, stops typing, submits
        the score and loads the board. */
    method FinishEntry()
      requires Valid()
      modifies this`scoreText, this`typing, this`leaderboardFile, this`shown
      ensures !typing && scoreText == username + " scored: " + IntToString(score)
      ensures Board(leaderboardFile) == Board(old(leaderboardFile))[username := IntToString(score)]
      ensures AllNumeric(Parse(leaderboardFile)) ==> ShowsTopOf(shown, Parse(leaderboardFile))
      ensures !AllNumeric(Parse(leaderboardFile)) ==> shown == old(shown)
    {
      scoreText := username + " scored: " + IntToString(score);
      typing := false;
      SubmitScore();
      ghost var submitted := leaderboardFile;
      LoadStats();
      EmptyFileBoard(submitted);
    }
  }

  /** Creating a missing file changes nothing a parser reads from it. */
  lemma EmptyFileBoard(file: Option<string>)
    ensures Parse(if file.None? then Some("") else file) == Parse(file)
    ensures Board(if file.None? then Some("") else file) == Board(file)
  {
    if file.None? {
      assert Lines("") == [];
    }
  }

  /** The ranking built from the board is the board's own scores, its top
      rows the best of them. */
  lemma ShownFromBoard(entries: seq<Entry>, sorted: seq<(string, int)>)
    requires Sorted(entries) && AllNumeric(entries)
    requires NonIncreasing(sorted) && multiset(sorted) == multiset(ScoreList(entries))
    requires |sorted| == |entries|
    ensures ShowsTopOf(TopRows(sorted), entries)
  {
    var top := TopRows(sorted);
    TopRowsTaken(sorted);
    forall x, j | x in ScoreList(entries) && x !in top && 0 <= j < |top|
      ensures x.1 <= top[j].1
    {
      assert x in multiset(sorted);
      TopRowsBest(sorted, x, j);
    }
    forall x | x in top
      ensures x.0 in ToMap(entries) && Stoi(ToMap(entries)[x.0]) == Some(x.1)
    {
      assert x in multiset(ScoreList(entries));
      ScoreListFaithful(entries, x);
    }
  }
}
