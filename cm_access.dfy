/** The configuration sections of wg_cm.h and the lookups of cm_access.c
    over their field arrays. The ini file itself is read and written by
    libini, which is not part of this model: its outcomes are parameters. */
module CmAccess {
  import opened CTypes

  /** CONFIG_MAX_FIELDS_NUM and CONFIG_MAX_GAMES_NUM */
  const ConfigMaxFieldsNum: nat := 8
  const ConfigMaxGamesNum: nat := ConfigMaxFieldsNum

  /** GAME_PREFIX */
  const GamePrefix: string := "game"

  /** CONFIG_SECTION_TYPE */
  datatype SectionType = InvalidSection | GamesListSection | ServerSection | GameSection

  /** CONFIG_FIELD_TYPE */
  datatype FieldType = FieldInvalid | FieldString

  /** Config_field: a key name and its string value. In the games list the
      names are the keys game0 .. game7 and the values are the game names. */
  datatype Field = Field(ftype: FieldType, name: string, value: string)

  /** Config_section */
  datatype Section = Section(name: string, stype: SectionType, fields: seq<Field>)

  predicate ValidSection(s: Section)
  {
    |s.fields| == ConfigMaxFieldsNum
  }

  /** cm_read_section: the section's type chooses the reader; every other
      type fails without reading. */
  function ReadSection(stype: SectionType, serverRead: Status, gamesListRead: Status): (status: Status)
    ensures stype == ServerSection ==> status == serverRead
    ensures stype == GamesListSection ==> status == gamesListRead
    ensures status == Success ==>
              (stype == ServerSection && serverRead == Success) || (stype == GamesListSection && gamesListRead == Success)
  {
    match stype
    case ServerSection => serverRead
    case GamesListSection => gamesListRead
    case _ => Failure
  }

  /** The bound a search over the first num fields runs up to. */
  function Bound(num: int): nat
  {
    if num < 0 then 0 else num
  }

  /** The first index, from `from` on and below num, of an INVALID field;
      Bound(num) when there is none. */
  function FirstInvalid(fields: seq<Field>, num: int, from: nat): (i: nat)
    requires num <= |fields| && from <= Bound(num)
    ensures from <= i <= Bound(num)
    ensures forall j :: from <= j < i ==> fields[j].ftype != FieldInvalid
    ensures i < Bound(num) ==> fields[i].ftype == FieldInvalid
    decreases Bound(num) - from
  {
    if from == Bound(num) then from
    else if fields[from].ftype == FieldInvalid then from
    else FirstInvalid(fields, num, from + 1)
  }

  /** find_invalid_key: the index of the first INVALID field, true exactly
      when it lies below num. */
  method FindInvalidKey(fields: seq<Field>, num: int) returns (found: bool, pos: int)
    requires num <= |fields|
    ensures pos == FirstInvalid(fields, num, 0)
    ensures found <==> pos < num
    ensures found <==> exists i :: 0 <= i < num && fields[i].ftype == FieldInvalid
  {
    var index := 0;
    while index < num && fields[index].ftype != FieldInvalid
      invariant 0 <= index <= Bound(num)
      invariant FirstInvalid(fields, num, 0) == FirstInvalid(fields, num, index)
    {
      index := index + 1;
    }
    pos := index;
    found := !(index >= num);
  }

  /** A STRING field whose name is the given one. */
  predicate NamedField(f: Field, name: string)
  {
    f.ftype == FieldString && f.name == name
  }

  /** The first index below num of a STRING field with the name; Bound(num)
      when there is none. */
  function FirstNamed(fields: seq<Field>, num: int, name: string, from: nat): (i: nat)
    requires num <= |fields| && from <= Bound(num)
    ensures from <= i <= Bound(num)
    ensures forall j :: from <= j < i ==> !NamedField(fields[j], name)
    ensures i < Bound(num) ==> NamedField(fields[i], name)
    decreases Bound(num) - from
  {
    if from == Bound(num) then from
    else if NamedField(fields[from], name) then from
    else FirstNamed(fields, num, name, from + 1)
  }

  /** find_key: true exactly when a STRING field among the first num has the
      name; the position is then that field's index, and num - 1 otherwise
      (the loop counter stops one past the last field it compared). */
  method FindKey(name: string, fields: seq<Field>, num: int) returns (found: bool, pos: int)
    requires num <= |fields|
    ensures found <==> exists i :: 0 <= i < num && NamedField(fields[i], name)
    ensures found ==> pos == FirstNamed(fields, num, name, 0)
    ensures !found ==> pos == Bound(num) - 1
  {
    var index := 0;
    var compareFlag := -1;
    while index < num && compareFlag != 0
      invariant 0 <= index <= Bound(num)
      invariant compareFlag == 0 ==> index > 0 && NamedField(fields[index - 1], name)
      invariant compareFlag == 0 ==> FirstNamed(fields, num, name, 0) == index - 1
      invariant compareFlag != 0 ==> FirstNamed(fields, num, name, 0) == FirstNamed(fields, num, name, index)
    {
      match fields[index].ftype {
        case FieldString =>
          compareFlag := if name == fields[index].name then 0 else 1;
        case FieldInvalid =>
      }
      index := index + 1;
    }
    pos := index - 1;
    found := compareFlag == 0;
  }

  /** Where cm_write_game puts a game in the games list: the key it already
      has, a new key gameN in the first free slot N, or nowhere, which is
      the failure "too many games". */
  datatype Slot = Existing | NewSlot(index: nat, key: string) | NoSlot

  /** The key name snprintf builds as GAME_PREFIX"%d" for a slot index. */
  function GameKey(index: nat): (key: string)
    requires index < 10
    ensures |key| == |GamePrefix| + 1 && key[..|GamePrefix|] == GamePrefix
  {
    GamePrefix + [('0' as int + index) as char]
  }

  /** A listed game: a STRING field whose value is the game's name. */
  predicate ListedGame(f: Field, game: string)
  {
    f.ftype == FieldString && f.value == game
  }

  /** The slot choice of cm_write_game as written: it searches the games
      list with find_key, which compares the game name with the key names
      game0 .. game7. */
  function SlotAsWritten(gamesList: seq<Field>, game: string): (slot: Slot)
    requires |gamesList| == ConfigMaxFieldsNum
    ensures slot == Existing <==> exists i :: 0 <= i < ConfigMaxFieldsNum && NamedField(gamesList[i], game)
  {
    if FirstNamed(gamesList, ConfigMaxFieldsNum, game, 0) < ConfigMaxFieldsNum then Existing
    else
      var free := FirstInvalid(gamesList, ConfigMaxFieldsNum, 0);
      if free < ConfigMaxFieldsNum then NewSlot(free, GameKey(free)) else NoSlot
  }

  /** The first listed entry with the game's name; Bound(num) when none. */
  function FirstListed(fields: seq<Field>, num: int, game: string, from: nat): (i: nat)
    requires num <= |fields| && from <= Bound(num)
    ensures from <= i <= Bound(num)
    ensures forall j :: from <= j < i ==> !ListedGame(fields[j], game)
    ensures i < Bound(num) ==> ListedGame(fields[i], game)
    decreases Bound(num) - from
  {
    if from == Bound(num) then from
    else if ListedGame(fields[from], game) then from
    else FirstListed(fields, num, game, from + 1)
  }

  /** The slot choice cm_write_game evidently means: a game already in the
      list keeps its entry, a new game takes the first free slot, and a
      full list fails. */
  function ChosenSlot(gamesList: seq<Field>, game: string): (slot: Slot)
    requires |gamesList| == ConfigMaxFieldsNum
    ensures slot == Existing <==> exists i :: 0 <= i < ConfigMaxFieldsNum && ListedGame(gamesList[i], game)
    ensures slot.NewSlot? ==>
              slot.index < ConfigMaxFieldsNum && gamesList[slot.index].ftype == FieldInvalid &&
              slot.key == GameKey(slot.index) &&
              (forall j :: 0 <= j < slot.index ==> gamesList[j].ftype != FieldInvalid) &&
              (forall j :: 0 <= j < ConfigMaxFieldsNum ==> !ListedGame(gamesList[j], game))
    ensures slot == NoSlot <==>
              (forall j :: 0 <= j < ConfigMaxFieldsNum ==> !ListedGame(gamesList[j], game)) &&
              (forall j :: 0 <= j < ConfigMaxFieldsNum ==> gamesList[j].ftype != FieldInvalid)
  {
    if FirstListed(gamesList, ConfigMaxFieldsNum, game, 0) < ConfigMaxFieldsNum then Existing
    else
      var free := FirstInvalid(gamesList, ConfigMaxFieldsNum, 0);
      if free < ConfigMaxFieldsNum then NewSlot(free, GameKey(free)) else NoSlot
  }

  /** The games list after a game is given a new slot. */
  function WithGame(gamesList: seq<Field>, slot: Slot, game: string): seq<Field>
    requires slot.NewSlot? && slot.index < |gamesList|
  {
    gamesList[slot.index := Field(FieldString, slot.key, game)]
  }

  /** As written, a game already in the list is given a second entry: with
      "snake" under game0 and the other slots free, writing "snake" again
      takes slot 1 instead of keeping game0. */
  lemma AsWrittenDuplicatesGame()
    ensures var list := [Field(FieldString, "game0", "snake")] + seq(7, _ => Field(FieldInvalid, "", ""));
            SlotAsWritten(list, "snake") == NewSlot(1, "game1") &&
            ChosenSlot(list, "snake") == Existing
  {
    var list := [Field(FieldString, "game0", "snake")] + seq(7, _ => Field(FieldInvalid, "", ""));
    assert "game0" != "snake";
    assert ListedGame(list[0], "snake");
    assert FirstNamed(list, ConfigMaxFieldsNum, "snake", 0) == ConfigMaxFieldsNum;
    assert FirstInvalid(list, ConfigMaxFieldsNum, 0) == 1;
    assert GameKey(1) == "game1";
  }

  /** With the corrected choice, writing a game twice leaves one entry for
      it: after it is placed in its new slot the next write finds it. */
  lemma WriteTwiceKeepsOneEntry(gamesList: seq<Field>, game: string)
    requires |gamesList| == ConfigMaxFieldsNum
    requires ChosenSlot(gamesList, game).NewSlot?
    ensures ChosenSlot(WithGame(gamesList, ChosenSlot(gamesList, game), game), game) == Existing
  {
    var slot := ChosenSlot(gamesList, game);
    var after := WithGame(gamesList, slot, game);
    assert ListedGame(after[slot.index], game);
  }

  /** The slot search of cm_write_game as written, by the two searches it
      calls. */
  method WriteGameSlotAsWritten(gamesList: seq<Field>, game: string) returns (slot: Slot)
    requires |gamesList| == ConfigMaxFieldsNum
    ensures slot == SlotAsWritten(gamesList, game)
  {
    var found, _ := FindKey(game, gamesList, ConfigMaxFieldsNum);
    if !found {
      var free, index := FindInvalidKey(gamesList, ConfigMaxFieldsNum);
      if free {
        return NewSlot(index, GameKey(index));
      } else {
        return NoSlot;
      }
    }
    return Existing;
  }

  /** find_key over the games list's values, which hold the game names. */
  method FindGame(game: string, fields: seq<Field>, num: int) returns (found: bool, pos: int)
    requires num <= |fields|
    ensures found <==> exists i :: 0 <= i < num && ListedGame(fields[i], game)
    ensures found ==> pos == FirstListed(fields, num, game, 0)
    ensures !found ==> pos == Bound(num) - 1
  {
    var index := 0;
    var compareFlag := -1;
    while index < num && compareFlag != 0
      invariant 0 <= index <= Bound(num)
      invariant compareFlag == 0 ==> index > 0 && ListedGame(fields[index - 1], game)
      invariant compareFlag == 0 ==> FirstListed(fields, num, game, 0) == index - 1
      invariant compareFlag != 0 ==> FirstListed(fields, num, game, 0) == FirstListed(fields, num, game, index)
    {
      match fields[index].ftype {
        case FieldString =>
          compareFlag := if game == fields[index].value then 0 else 1;
        case FieldInvalid =>
      }
      index := index + 1;
    }
    pos := index - 1;
    found := compareFlag == 0;
  }

  /** The corrected slot search of cm_write_game. */
  method WriteGameSlot(gamesList: seq<Field>, game: string) returns (slot: Slot)
    requires |gamesList| == ConfigMaxFieldsNum
    ensures slot == ChosenSlot(gamesList, game)
  {
    var found, _ := FindGame(game, gamesList, ConfigMaxFieldsNum);
    if !found {
      var free, index := FindInvalidKey(gamesList, ConfigMaxFieldsNum);
      if free {
        return NewSlot(index, GameKey(index));
      } else {
        return NoSlot;
      }
    }
    return Existing;
  }
}
