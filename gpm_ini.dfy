/** The gameplay side of the configuration (gpm_ini.c): the field iterator
    over a section and the lookups of games and fields. The module's
    sections, config_games_list and config_game, are filled by
    gpm_ini_read and only read here, so they are parameters. Entry i of
    config_game is the section of the game listed in slot i of the games
    list. */
module GpmIni {
  import opened CTypes
  import opened CmAccess

  /** The first field, from `from` on, that is not INVALID; the number of
      fields when there is none. */
  function NextValid(fields: seq<Field>, from: nat): (k: nat)
    requires from <= |fields|
    ensures from <= k <= |fields|
    ensures forall j :: from <= j < k ==> fields[j].ftype == FieldInvalid
    ensures k < |fields| ==> fields[k].ftype != FieldInvalid
    decreases |fields| - from
  {
    if from == |fields| then from
    else if fields[from].ftype != FieldInvalid then from
    else NextValid(fields, from + 1)
  }

  /** The indices successive calls of the iterator deliver from `from` on. */
  function Visits(fields: seq<Field>, from: nat): seq<nat>
    requires from <= |fields|
    decreases |fields| - from
  {
    var k := NextValid(fields, from);
    if k == |fields| then [] else [k] + Visits(fields, k + 1)
  }

  /** The iterator delivers every field that is not INVALID, and only
      those, in increasing index order. */
  lemma {:induction false} VisitsValidFields(fields: seq<Field>, from: nat)
    requires from <= |fields|
    ensures forall i :: i in Visits(fields, from) <==> from <= i < |fields| && fields[i].ftype != FieldInvalid
    ensures forall a, b :: 0 <= a < b < |Visits(fields, from)| ==> Visits(fields, from)[a] < Visits(fields, from)[b]
    decreases |fields| - from
  {
    var k := NextValid(fields, from);
    if k < |fields| {
      VisitsValidFields(fields, k + 1);
      var rest := Visits(fields, k + 1);
      assert Visits(fields, from) == [k] + rest;
      forall a, b | 0 <= a < b < |Visits(fields, from)|
        ensures Visits(fields, from)[a] < Visits(fields, from)[b]
      {
        assert rest[b - 1] in rest;
        if a > 0 {
          assert Visits(fields, from)[a] == rest[a - 1];
        }
      }
    }
  }

  /** Field_iterator */
  class FieldIterator {
    var section: Section
    var index: u32
    var lastIndex: u32

    predicate Valid()
      reads this
    {
      ValidSection(section) && lastIndex as int == ConfigMaxFieldsNum - 1 && index as int <= ConfigMaxFieldsNum
    }

    /** gpm_ini_get_field_iterator: the iterator covers the indices 0 to
        CONFIG_MAX_FIELDS_NUM - 1 of the section. */
    constructor (s: Section)
      requires ValidSection(s)
      ensures Valid() && section == s && index == 0
    {
      section := s;
      index := 0;
      lastIndex := ConfigMaxFieldsNum as u32 - 1;
    }

    /** gpm_ini_field_iterator_next: INVALID fields are skipped; the next
        other field is delivered and the iterator moves past it; when none
        is left the call fails with the iterator at its end. */
    method Next() returns (status: Status, field: Option<Field>)
      requires Valid()
      modifies this
      ensures Valid() && section == old(section)
      ensures var k := NextValid(section.fields, old(index) as nat);
              if k < ConfigMaxFieldsNum then
                status == Success && field == Some(section.fields[k]) && index as int == k + 1
              else
                status == Failure && field == None && index as int == ConfigMaxFieldsNum
    {
      status := Failure;
      field := None;
      while index <= lastIndex
        invariant Valid() && section == old(section)
        invariant old(index) <= index
        invariant NextValid(section.fields, old(index) as nat) == NextValid(section.fields, index as nat)
      {
        var cf := section.fields[index];
        index := index + 1;
        if cf.ftype != FieldInvalid {
          field := Some(cf);
          status := Success;
          break;
        }
      }
    }
  }

  /** gpm_ini_get_field_by_id: an id past CONFIG_MAX_FIELDS_NUM - 1 and an
      INVALID field both fail. */
  function FieldById(section: Section, id: u32): (r: Option<Field>)
    requires ValidSection(section)
    ensures r.Some? <==> id as int < ConfigMaxFieldsNum && section.fields[id].ftype != FieldInvalid
    ensures r.Some? ==> r.value == section.fields[id]
  {
    if id as int >= ConfigMaxFieldsNum then None
    else if section.fields[id].ftype != FieldInvalid then Some(section.fields[id])
    else None
  }

  /** A field is found by its id exactly when the iterator delivers it. */
  lemma FieldByIdAgreesWithIterator(section: Section, id: u32)
    requires ValidSection(section)
    ensures FieldById(section, id).Some? <==> id as nat in Visits(section.fields, 0)
  {
    VisitsValidFields(section.fields, 0);
  }

  /** gpm_ini_get_game_by_index: an index past CONFIG_MAX_GAMES_NUM - 1
      fails; otherwise the game section of that slot. */
  function GameByIndex(games: seq<Section>, index: u32): (r: Option<Section>)
    requires |games| == ConfigMaxGamesNum
    ensures r.Some? <==> index as int < ConfigMaxGamesNum
    ensures r.Some? ==> r.value == games[index]
  {
    if index as int >= ConfigMaxGamesNum then None else Some(games[index])
  }

  /** gpm_ini_get_game_by_name as written: it succeeds exactly when a
      STRING entry of the games list holds the name, but the index it
      reports, and the game section it selects, are those of the slot after
      the match; a match in the last slot selects the element past the end
      of config_game. */
  method GameByNameAsWritten(gamesList: seq<Field>, name: string)
    returns (status: Status, index: u32, game: Option<nat>)
    requires |gamesList| == ConfigMaxGamesNum
    ensures status == Success <==> exists i :: 0 <= i < ConfigMaxGamesNum && ListedGame(gamesList[i], name)
    ensures status == Success ==>
              index as int == FirstListed(gamesList, ConfigMaxGamesNum, name, 0) + 1 && game == Some(index as nat)
    ensures status == Failure ==> index as int == ConfigMaxGamesNum && game == None
  {
    var i := 0;
    var compareStatus := -1;
    while i < ConfigMaxGamesNum && compareStatus != 0
      invariant 0 <= i <= ConfigMaxGamesNum
      invariant compareStatus == 0 ==> i > 0 && FirstListed(gamesList, ConfigMaxGamesNum, name, 0) == i - 1
      invariant compareStatus != 0 ==>
                  FirstListed(gamesList, ConfigMaxGamesNum, name, 0) == FirstListed(gamesList, ConfigMaxGamesNum, name, i)
    {
      var configField := gamesList[i];
      if configField.ftype != FieldInvalid {
        match configField.ftype {
          case FieldString =>
            compareStatus := if configField.value == name then 0 else 1;
        }
      }
      i := i + 1;
    }
    index := i as u32;
    if compareStatus == 0 {
      return Success, index, Some(i);
    }
    return Failure, index, None;
  }

  /** One game, "snake", in slot 0: the lookup as written reports slot 1 and
      selects the section of slot 1. */
  method AsWrittenSelectsNextSlot() returns (status: Status, index: u32, game: Option<nat>)
    ensures status == Success && index == 1 && game == Some(1)
  {
    var list := [Field(FieldString, "game0", "snake")] + seq(7, _ => Field(FieldInvalid, "", ""));
    assert ListedGame(list[0], "snake");
    status, index, game := GameByNameAsWritten(list, "snake");
  }

  /** gpm_ini_get_game_by_name with the index of the matching slot. */
  method GameByName(gamesList: seq<Field>, name: string)
    returns (status: Status, index: u32, game: Option<nat>)
    requires |gamesList| == ConfigMaxGamesNum
    ensures status == Success <==> exists i :: 0 <= i < ConfigMaxGamesNum && ListedGame(gamesList[i], name)
    ensures status == Success ==>
              game == Some(index as nat) && index as int < ConfigMaxGamesNum &&
              ListedGame(gamesList[index], name) &&
              forall j :: 0 <= j < index as int ==> !ListedGame(gamesList[j], name)
    ensures status == Failure ==> game == None
  {
    var found, pos := FindGame(name, gamesList, ConfigMaxGamesNum);
    if found {
      return Success, pos as u32, Some(pos);
    }
    return Failure, ConfigMaxGamesNum as u32, None;
  }
}
