/** The key=value configuration store of wg_config.c. The lines are kept
    in their list's iteration order, oldest first, which is the order the
    lookups search them in; a line's text is the C string in its buffer. */
module WgConfig {
  import opened CTypes

  /** CONFIG_MAX_LINE_SIZE and CONFIG_DELIM */
  const ConfigMaxLineSize: nat := 80
  const ConfigDelim: char := '='

  /** strncmp(key, text, strlen(key)) == 0: the text begins with the key. */
  predicate StartsWith(text: string, key: string)
  {
    |key| <= |text| && text[..|key|] == key
  }

  /** The characters strncpy copies from a string into a buffer of n. */
  function Take(s: string, n: nat): (r: string)
    ensures |r| <= n && |r| <= |s| && r == s[..|r|]
    ensures |r| == if |s| < n then |s| else n
  {
    if |s| <= n then s else s[..n]
  }

  /** create_line: the text is copied into an 80-character buffer and one
      trailing newline is removed. */
  function CreateLine(text: string): (line: string)
    requires |text| > 0
    ensures |line| <= ConfigMaxLineSize
    ensures line == Take(text, ConfigMaxLineSize) || line + "\n" == Take(text, ConfigMaxLineSize)
    ensures |line| > 0 ==> line[|line| - 1] != '\n' || Take(text, ConfigMaxLineSize)[|line| - 1] == '\n'
    ensures Take(text, ConfigMaxLineSize)[|Take(text, ConfigMaxLineSize)| - 1] != '\n' ==> line == Take(text, ConfigMaxLineSize)
  {
    var copied := Take(text, ConfigMaxLineSize);
    if copied[|copied| - 1] == '\n' then copied[..|copied| - 1] else copied
  }

  /** The text wg_config_add_value builds for a new key: the key, the
      delimiter, and as much of the value as fits in 80 characters. */
  function KeyValueText(key: string, value: string): (text: string)
    requires |key| < ConfigMaxLineSize
    ensures |key| < |text| <= ConfigMaxLineSize && StartsWith(text, key) && text[|key|] == ConfigDelim
    ensures text[|key| + 1..] == Take(value, ConfigMaxLineSize - |key| - 1)
  {
    key + [ConfigDelim] + Take(value, ConfigMaxLineSize - |key| - 1)
  }

  /** The line a key and value are stored as. */
  function NewLine(key: string, value: string): (line: string)
    requires |key| < ConfigMaxLineSize
    ensures StartsWith(line, key) && |line| > |key| && line[|key|] == ConfigDelim
  {
    var text := KeyValueText(key, value);
    assert text[|text| - 1] == '\n' ==> |text| > |key| + 1;
    CreateLine(text)
  }

  /** The position get_value stops at: the first line that begins with the
      key, or the number of lines when none does. */
  function FirstLine(lines: seq<string>, key: string): (i: nat)
    ensures i <= |lines|
    ensures forall j :: 0 <= j < i ==> !StartsWith(lines[j], key)
    ensures i < |lines| ==> StartsWith(lines[i], key)
  {
    if |lines| == 0 then 0
    else if StartsWith(lines[0], key) then 0
    else 1 + FirstLine(lines[1..], key)
  }

  /** The text after the key and one delimiter character in the first
      matching line. A line that is exactly the key has nothing after it:
      the byte past its terminator is padding strncpy wrote as NUL. */
  function Lookup(lines: seq<string>, key: string): (r: Option<string>)
    ensures r.Some? <==> exists i :: 0 <= i < |lines| && StartsWith(lines[i], key)
  {
    var i := FirstLine(lines, key);
    if i == |lines| then None
    else if |lines[i]| > |key| then Some(lines[i][|key| + 1..])
    else Some([])
  }

  /** The lines after wg_config_add_value as written: an existing key's
      line is overwritten with the value alone. */
  function AddedAsWritten(lines: seq<string>, key: string, value: string): (r: seq<string>)
    requires |key| < ConfigMaxLineSize
    ensures FirstLine(lines, key) < |lines| ==>
              |r| == |lines| && forall j :: 0 <= j < |lines| && j != FirstLine(lines, key) ==> r[j] == lines[j]
    ensures FirstLine(lines, key) == |lines| ==> |r| == |lines| + 1 && r[..|lines|] == lines
  {
    var i := FirstLine(lines, key);
    if i < |lines| then lines[i := Take(value, ConfigMaxLineSize)]
    else lines + [NewLine(key, value)]
  }

  /** The lines after wg_config_add_value with the overwrite storing the
      same key=value line a new key gets. */
  function Added(lines: seq<string>, key: string, value: string): (r: seq<string>)
    requires |key| < ConfigMaxLineSize
    ensures |r| == |lines| || r == lines + [NewLine(key, value)]
  {
    var i := FirstLine(lines, key);
    if i < |lines| then lines[i := NewLine(key, value)]
    else lines + [NewLine(key, value)]
  }

  /** The value a key is stored with: what fits of it, less a trailing
      newline. */
  function StoredValue(key: string, value: string): string
    requires |key| < ConfigMaxLineSize
  {
    NewLine(key, value)[|key| + 1..]
  }

  lemma FirstLineAt(lines: seq<string>, key: string, i: nat)
    requires i < |lines| && StartsWith(lines[i], key)
    requires forall j :: 0 <= j < i ==> !StartsWith(lines[j], key)
    ensures FirstLine(lines, key) == i
  {
  }

  /** Adding a key and then looking it up gives back the stored value,
      whether the key was new or already present. */
  lemma AddThenLookup(lines: seq<string>, key: string, value: string)
    requires |key| < ConfigMaxLineSize
    ensures Lookup(Added(lines, key, value), key) == Some(StoredValue(key, value))
  {
    var i := FirstLine(lines, key);
    var after := Added(lines, key, value);
    FirstLineAt(after, key, i);
  }

  /** For a value that fits and has no trailing newline the stored value is
      the value itself. */
  lemma StoredValueExact(key: string, value: string)
    requires |key| + 1 + |value| <= ConfigMaxLineSize
    requires |value| > 0 ==> value[|value| - 1] != '\n'
    ensures StoredValue(key, value) == value
  {
    var text := KeyValueText(key, value);
    assert text == key + [ConfigDelim] + value;
    assert text[|text| - 1] != '\n';
  }

  /** As written, overwriting a key loses it: after "k=1" is stored under
      "k", adding "k" again with "2" leaves the line "2", and "k" is no
      longer found. */
  lemma AsWrittenOverwriteLosesKey()
    ensures AddedAsWritten(["k=1"], "k", "2") == ["2"]
    ensures Lookup(AddedAsWritten(["k=1"], "k", "2"), "k") == None
  {
    assert StartsWith("k=1", "k");
    assert FirstLine(["k=1"], "k") == 0;
    assert "2"[..1] == "2" && "2" != "k";
    assert FirstLine(["2"], "k") == 1;
  }

  /** Wg_config: the list of lines. */
  class Config {
    var lines: seq<string>

    /** list_init on a fresh configuration. */
    constructor ()
      ensures lines == []
    {
      lines := [];
    }

    /** get_value: the first line, oldest first, that begins with the key. */
    method GetLine(key: string) returns (found: bool, index: nat)
      ensures found <==> exists i :: 0 <= i < |lines| && StartsWith(lines[i], key)
      ensures found ==> index < |lines| && StartsWith(lines[index], key)
      ensures found ==> forall j :: 0 <= j < index ==> !StartsWith(lines[j], key)
      ensures index == FirstLine(lines, key) || !found
    {
      found := false;
      index := 0;
      var k := 0;
      while k < |lines|
        invariant 0 <= k <= |lines|
        invariant forall j :: 0 <= j < k ==> !StartsWith(lines[j], key)
      {
        if StartsWith(lines[k], key) {
          FirstLineAt(lines, key, k);
          return true, k;
        }
        k := k + 1;
      }
    }

    /** wg_config_get_value: on success the caller's buffer of `size`
      characters receives the text after the key and its delimiter; on
      failure the buffer is left alone. */
    method GetValue(key: string, buffer: string, size: nat) returns (status: Status, value: string)
      ensures status == Success <==> Lookup(lines, key).Some?
      ensures status == Success ==> value == Take(Lookup(lines, key).value, size)
      ensures status == Failure ==> value == buffer
    {
      var found, index := GetLine(key);
      if found {
        var text := lines[index];
        var after := if |text| > |key| then text[|key| + 1..] else [];
        return Success, Take(after, size);
      }
      return Failure, buffer;
    }

    /** wg_config_add_value as written. */
    method AddValueAsWritten(key: string, value: string) returns (status: Status)
      requires |key| < ConfigMaxLineSize
      modifies this
      ensures status == Success && lines == AddedAsWritten(old(lines), key, value)
    {
      var found, index := GetLine(key);
      if found {
        lines := lines[index := Take(value, ConfigMaxLineSize)];
      } else {
        var lineText := KeyValueText(key, value);
        lines := lines + [CreateLine(lineText)];
      }
      return Success;
    }

    /** wg_config_add_value with the overwrite writing the whole line. */
    method AddValue(key: string, value: string) returns (status: Status)
      requires |key| < ConfigMaxLineSize
      modifies this
      ensures status == Success && lines == Added(old(lines), key, value)
      ensures Lookup(lines, key) == Some(StoredValue(key, value))
    {
      var found, index := GetLine(key);
      if found {
        lines := lines[index := NewLine(key, value)];
      } else {
        var lineText := KeyValueText(key, value);
        lines := lines + [CreateLine(lineText)];
      }
      AddThenLookup(old(lines), key, value);
      return Success;
    }
  }

  /** The unit test's sequence: a fresh configuration, "key1" added with
      "value1", then looked up into an 80-character buffer. */
  method AddThenGetKey1() returns (status: Status, value: string)
    ensures status == Success && value == "value1"
  {
    var config := new Config();
    var _ := config.AddValue("key1", "value1");
    StoredValueExact("key1", "value1");
    status, value := config.GetValue("key1", [], 80);
  }
}
