/** The coordinate reader of the Java demo game (TestGame.java). Each
    accepted connection delivers one chunk of text; the chunk is split on
    runs of whitespace, the tokens are read pairwise as decimal integers, and
    every pair becomes a coloured Hit appended to the shared hit list. A
    token that is not an integer throws NumberFormatException, which is not
    an IOException: it ends the reader, after the hits of the earlier pairs
    of that chunk were already appended. */
module TestGame {
  import opened CTypes

  /** java.awt.Color, with its alpha channel. */
  datatype Color = Color(r: int, g: int, b: int, alpha: int)

  /** Color.BLUE */
  const Blue: Color := Color(0, 0, 255, 255)

  /** What ColorFactory.getRandom() can return: nextInt(255) per channel,
      opaque. */
  predicate RandomColor(c: Color)
  {
    0 <= c.r < 255 && 0 <= c.g < 255 && 0 <= c.b < 255 && c.alpha == 255
  }

  /** java.awt.Point */
  datatype Point = Point(x: i32, y: i32)

  /** Hit: a point with a colour. */
  datatype Hit = Hit(x: i32, y: i32, color: Color)

  /** Hit(Point p, Color color): the chain every other constructor ends in. */
  function HitOfPoint(p: Point, color: Color): (h: Hit)
    ensures h.x == p.x && h.y == p.y && h.color == color
  {
    Hit(p.x, p.y, color)
  }

  /** Hit(int x, int y, Color color) */
  function HitXYColor(x: i32, y: i32, color: Color): (h: Hit)
    ensures h.x == x && h.y == y && h.color == color
  {
    HitOfPoint(Point(x, y), color)
  }

  /** Hit(Point p): blue. */
  function HitOfPointBlue(p: Point): (h: Hit)
    ensures h.x == p.x && h.y == p.y && h.color == Blue
  {
    HitOfPoint(p, Blue)
  }

  /** Hit(int x, int y): blue. */
  function HitXY(x: i32, y: i32): (h: Hit)
    ensures h.x == x && h.y == y && h.color == Blue
  {
    HitOfPointBlue(Point(x, y))
  }

  /** Hit(): the origin, blue. */
  function HitDefault(): (h: Hit)
    ensures h.x == 0 && h.y == 0 && h.color == Blue
  {
    HitXY(0, 0)
  }

  // ---------------------------------------------------------------------
  // String.split("\\s+")

  /** The regular-expression class \s: space, tab, newline, vertical tab,
      form feed, carriage return. */
  predicate IsSpace(c: char)
  {
    c == ' ' || c == '\t' || c == '\n' || c == '\U{000B}' || c == '\U{000C}' || c == '\r'
  }

  predicate NoSpace(s: string)
  {
    forall i :: 0 <= i < |s| ==> !IsSpace(s[i])
  }

  /** The text after the leading run of whitespace. */
  function DropSpaces(s: string): (r: string)
    ensures |r| <= |s| && (r == [] || !IsSpace(r[0]))
    ensures s != [] && IsSpace(s[0]) ==> |r| < |s|
    decreases |s|
  {
    if s != [] && IsSpace(s[0]) then DropSpaces(s[1..]) else s
  }

  /** The pieces between the (maximal) whitespace runs, including an empty
      piece before a leading run and after a trailing run. */
  function Fields(s: string): (r: seq<string>)
    ensures |r| >= 1
    decreases |s|
  {
    if s == [] then [""]
    else if IsSpace(s[0]) then [""] + Fields(DropSpaces(s))
    else
      var rest := Fields(s[1..]);
      [[s[0]] + rest[0]] + rest[1..]
  }

  /** Trailing empty strings are removed from the result of split. */
  function StripTrailingEmpty(l: seq<string>): (r: seq<string>)
    ensures |r| <= |l| && r == l[..|r|]
    ensures r == [] || r[|r| - 1] != ""
    decreases |l|
  {
    if l != [] && l[|l| - 1] == "" then StripTrailingEmpty(l[..|l| - 1]) else l
  }

  /** String.split("\\s+") with limit 0: a string without a match is its
      only piece; otherwise the pieces with trailing empty pieces removed. */
  function Split(s: string): (r: seq<string>)
    ensures r == [] || r[|r| - 1] != "" || (s == "" && r == [""])
  {
    if NoSpace(s) then [s] else StripTrailingEmpty(Fields(s))
  }

  lemma {:induction false} FieldsNoSpace(s: string)
    ensures forall i :: 0 <= i < |Fields(s)| ==> NoSpace(Fields(s)[i])
    ensures forall i :: 1 <= i < |Fields(s)| - 1 ==> Fields(s)[i] != ""
    decreases |s|
  {
    if s == [] {
    } else if IsSpace(s[0]) {
      FieldsNoSpace(DropSpaces(s));
      var d := DropSpaces(s);
      if d != [] {
        assert Fields(d)[0] != "" by { FieldsHeadStart(d); }
      }
    } else {
      FieldsNoSpace(s[1..]);
      var rest := Fields(s[1..]);
      assert NoSpace([s[0]] + rest[0]);
    }
  }

  /** A text that starts with a non-blank character has a non-empty first
      piece. */
  lemma FieldsHeadStart(s: string)
    requires s != [] && !IsSpace(s[0])
    ensures Fields(s)[0] != ""
  {
  }

  /** Every token of split contains no whitespace, and only the first can
      be empty. */
  lemma SplitTokens(s: string)
    ensures forall i :: 0 <= i < |Split(s)| ==> NoSpace(Split(s)[i])
    ensures forall i :: 1 <= i < |Split(s)| ==> Split(s)[i] != ""
  {
    if !NoSpace(s) {
      FieldsNoSpace(s);
      var f := Fields(s);
      var r := StripTrailingEmpty(f);
      assert forall i :: 0 <= i < |r| ==> r[i] == f[i];
    }
  }

  /** The tokens joined by single spaces. */
  function JoinSpace(ts: seq<string>): string
    decreases |ts|
  {
    if |ts| <= 1 then (if ts == [] then "" else ts[0]) else ts[0] + " " + JoinSpace(ts[1..])
  }

  lemma {:induction false} FieldsOfWordThenRest(w: string, rest: string)
    requires NoSpace(w)
    ensures Fields(w + rest) == [w + Fields(rest)[0]] + Fields(rest)[1..]
    decreases |w|
  {
    if w != [] {
      assert (w + rest)[1..] == w[1..] + rest;
      FieldsOfWordThenRest(w[1..], rest);
      assert [w[0]] + (w[1..] + Fields(rest)[0]) == w + Fields(rest)[0];
    } else {
      var f := Fields(rest);
      assert w + rest == rest;
      assert w + f[0] == f[0];
      assert f == [f[0]] + f[1..];
    }
  }

  /** A text without whitespace is a single piece. */
  lemma {:induction false} FieldsOfWord(w: string)
    requires NoSpace(w)
    ensures Fields(w) == [w]
  {
    FieldsOfWordThenRest(w, "");
    assert w + "" == w;
  }

  /** One blank before a text that starts with a non-blank opens an empty
      piece and nothing else. */
  lemma FieldsOfBlankThen(tail: string)
    requires tail != [] && !IsSpace(tail[0])
    ensures Fields(" " + tail) == [""] + Fields(tail)
  {
    var t := " " + tail;
    assert t[0] == ' ' && t[1..] == tail;
    assert DropSpaces(t) == DropSpaces(tail) == tail;
  }

  /** The join of two or more tokens is the first, a blank and the join
      of the rest. */
  lemma JoinSpaceCons(ts: seq<string>)
    requires |ts| >= 2
    ensures JoinSpace(ts) == ts[0] + (" " + JoinSpace(ts[1..]))
  {
    var rest := JoinSpace(ts[1..]);
    assert ts[0] + " " + rest == ts[0] + (" " + rest);
  }

  /** Joined tokens start with the first character of the first token. */
  lemma JoinSpaceHead(ts: seq<string>)
    requires |ts| >= 1 && ts[0] != ""
    ensures JoinSpace(ts) != [] && JoinSpace(ts)[0] == ts[0][0]
  {
    if |ts| >= 2 {
      JoinSpaceCons(ts);
    }
  }

  lemma {:induction false} FieldsOfJoin(ts: seq<string>)
    requires |ts| >= 1
    requires forall i :: 0 <= i < |ts| ==> NoSpace(ts[i]) && ts[i] != ""
    ensures Fields(JoinSpace(ts)) == ts
    decreases |ts|
  {
    if |ts| == 1 {
      FieldsOfWord(ts[0]);
    } else {
      hide Fields, JoinSpace, DropSpaces;
      var tail := JoinSpace(ts[1..]);
      FieldsOfJoin(ts[1..]);
      JoinSpaceCons(ts);
      JoinSpaceHead(ts[1..]);
      FieldsOfBlankThen(tail);
      FieldsOfWordThenRest(ts[0], " " + tail);
      assert ts[0] + "" == ts[0];
      assert ts == [ts[0]] + ts[1..];
    }
  }

  /** Splitting non-empty tokens that were joined by single spaces gives the
      tokens back. */
  lemma SplitJoin(ts: seq<string>)
    requires |ts| >= 1
    requires forall i :: 0 <= i < |ts| ==> NoSpace(ts[i]) && ts[i] != ""
    ensures Split(JoinSpace(ts)) == ts
  {
    FieldsOfJoin(ts);
    if !NoSpace(JoinSpace(ts)) {
      assert ts[|ts| - 1] != "";
    } else {
      FieldsOfWord(JoinSpace(ts));
    }
  }

  // ---------------------------------------------------------------------
  // Integer.valueOf(String)

  /** Integer.valueOf / parseInt in radix 10: an optional sign, then at
      least one digit, and a value within int; anything else throws
      NumberFormatException (None). */
  function ParseInt(s: string): (r: Option<i32>)
    ensures r.Some? ==> s != [] && !IsSpace(s[0])
  {
    if s == [] then None
    else
      var start := if s[0] == '-' || s[0] == '+' then 1 else 0;
      if start == |s| || !AllDigits(s[start..]) then None
      else
        var d: int := DigitsValue(s[start..]);
        var v := if s[0] == '-' then -d else d;
        if I32_MIN <= v <= I32_MAX then Some(v) else None
  }

  /** Integer.toString in radix 10 of a non-negative value. */
  function NatToString(n: nat): (s: string)
    ensures s != [] && AllDigits(s)
    decreases n
  {
    if n < 10 then [(('0' as int) + n) as char]
    else NatToString(n / 10) + [(('0' as int) + n % 10) as char]
  }

  function IntToString(v: int): string
  {
    if v < 0 then "-" + NatToString(-v) else NatToString(v)
  }

  lemma {:induction false} NatToStringValue(n: nat)
    ensures DigitsValue(NatToString(n)) == n
    decreases n
  {
    if n >= 10 {
      NatToStringValue(n / 10);
      var s := NatToString(n);
      assert s[..|s| - 1] == NatToString(n / 10);
    }
  }

  lemma ParseNatString(n: nat)
    requires n <= I32_MAX
    ensures ParseInt(NatToString(n)) == Some(n)
  {
    NatToStringValue(n);
    var s := NatToString(n);
    assert s[0] != '-' && s[0] != '+';
    assert s[0..] == s;
  }

  lemma ParseNegString(n: nat)
    requires 0 < n <= -I32_MIN
    ensures ParseInt("-" + NatToString(n)) == Some(-(n as int))
  {
    NatToStringValue(n);
    var s := "-" + NatToString(n);
    assert s[1..] == NatToString(n);
  }

  /** Integer.valueOf(Integer.toString(v)) == v for every int. */
  lemma ParseIntToString(v: i32)
    ensures ParseInt(IntToString(v)) == Some(v)
    ensures NoSpace(IntToString(v)) && IntToString(v) != ""
  {
    if v < 0 {
      ParseNegString(-(v as int));
    } else {
      ParseNatString(v);
    }
  }

  // ---------------------------------------------------------------------
  // One chunk

  /** The hits the pairs of `toks` produce, in order, and whether every
      pair parsed. Reading stops at the first pair with a token that is not
      an integer. A last token without a partner is never read. `colors[k]`
      is the colour drawn for the k-th pair. */
  function ParsePairs(toks: seq<string>, colors: seq<Color>): (r: (seq<Hit>, bool))
    requires |colors| >= |toks| / 2
    ensures |r.0| <= |toks| / 2
    ensures r.1 ==> |r.0| == |toks| / 2
    decreases |toks|
  {
    if |toks| < 2 then ([], true)
    else
      match (ParseInt(toks[0]), ParseInt(toks[1]))
      case (Some(x), Some(y)) =>
        var rest := ParsePairs(toks[2..], colors[1..]);
        ([Hit(x, y, colors[0])] + rest.0, rest.1)
      case _ => ([], false)
  }

  /** The result of reading the pairs from token i on. */
  function PairsFrom(toks: seq<string>, colors: seq<Color>, i: nat): (seq<Hit>, bool)
    requires i <= |toks| && i % 2 == 0 && |colors| >= |toks| / 2
  {
    ParsePairs(toks[i..], colors[i / 2..])
  }

  lemma PairsFromStep(toks: seq<string>, colors: seq<Color>, i: nat)
    requires i + 2 <= |toks| && i % 2 == 0 && |colors| >= |toks| / 2
    ensures ParseInt(toks[i]).Some? && ParseInt(toks[i + 1]).Some? ==>
              PairsFrom(toks, colors, i) ==
              ([Hit(ParseInt(toks[i]).value, ParseInt(toks[i + 1]).value, colors[i / 2])] + PairsFrom(toks, colors, i + 2).0,
               PairsFrom(toks, colors, i + 2).1)
    ensures ParseInt(toks[i]).None? || ParseInt(toks[i + 1]).None? ==> PairsFrom(toks, colors, i) == ([], false)
  {
    var rest := toks[i..];
    var cs := colors[i / 2..];
    assert rest[0] == toks[i] && rest[1] == toks[i + 1] && cs[0] == colors[i / 2];
    assert rest[2..] == toks[i + 2..];
    assert cs[1..] == colors[(i + 2) / 2..];
  }

  lemma PairsFromEnd(toks: seq<string>, colors: seq<Color>, i: nat)
    requires i <= |toks| < i + 2 && i % 2 == 0 && |colors| >= |toks| / 2
    ensures PairsFrom(toks, colors, i) == ([], true)
  {
  }

  /** Pair k of a chunk whose pairs all parse becomes the k-th hit. */
  lemma {:induction false} AllNumericPairs(toks: seq<string>, colors: seq<Color>)
    requires |colors| >= |toks| / 2
    requires forall i :: 0 <= i < |toks| / 2 * 2 ==> ParseInt(toks[i]).Some?
    ensures ParsePairs(toks, colors).1
    ensures |ParsePairs(toks, colors).0| == |toks| / 2
    ensures forall k :: 0 <= k < |toks| / 2 ==>
              ParsePairs(toks, colors).0[k] ==
              Hit(ParseInt(toks[2 * k]).value, ParseInt(toks[2 * k + 1]).value, colors[k])
    decreases |toks|
  {
    hide ParseInt;
    if |toks| >= 2 {
      var t := toks[2..];
      assert forall i :: 0 <= i < |t| / 2 * 2 ==> t[i] == toks[i + 2];
      AllNumericPairs(t, colors[1..]);
      var r := ParsePairs(toks, colors);
      forall k | 1 <= k < |toks| / 2
        ensures r.0[k] == Hit(ParseInt(toks[2 * k]).value, ParseInt(toks[2 * k + 1]).value, colors[k])
      {
        assert r.0[k] == ParsePairs(t, colors[1..]).0[k - 1];
        assert t[2 * (k - 1)] == toks[2 * k] && t[2 * (k - 1) + 1] == toks[2 * k + 1];
      }
    }
  }

  /** When pair m is the first one that does not parse, exactly the hits
      of the m earlier pairs are produced and the chunk fails. */
  lemma {:induction false} PartialAppend(toks: seq<string>, colors: seq<Color>, m: nat)
    requires |colors| >= |toks| / 2
    requires 2 * m + 1 < |toks|
    requires forall i :: 0 <= i < 2 * m ==> ParseInt(toks[i]).Some?
    requires ParseInt(toks[2 * m]).None? || ParseInt(toks[2 * m + 1]).None?
    ensures !ParsePairs(toks, colors).1
    ensures |ParsePairs(toks, colors).0| == m
    ensures forall k :: 0 <= k < m ==>
              ParsePairs(toks, colors).0[k] ==
              Hit(ParseInt(toks[2 * k]).value, ParseInt(toks[2 * k + 1]).value, colors[k])
    decreases m
  {
    hide ParseInt;
    if m > 0 {
      var t := toks[2..];
      assert forall i :: 0 <= i < 2 * (m - 1) + 2 ==> t[i] == toks[i + 2];
      PartialAppend(t, colors[1..], m - 1);
      var r := ParsePairs(toks, colors);
      forall k | 1 <= k < m
        ensures r.0[k] == Hit(ParseInt(toks[2 * k]).value, ParseInt(toks[2 * k + 1]).value, colors[k])
      {
        assert r.0[k] == ParsePairs(t, colors[1..]).0[k - 1];
      }
    }
  }

  /** A last, unpaired token is dropped whatever it is. */
  lemma {:induction false} OddTokenDropped(toks: seq<string>, colors: seq<Color>)
    requires |colors| >= |toks| / 2
    ensures ParsePairs(toks, colors) == ParsePairs(toks[..|toks| / 2 * 2], colors)
    decreases |toks|
  {
    if |toks| >= 2 {
      var e := toks[..|toks| / 2 * 2];
      assert e[0] == toks[0] && e[1] == toks[1];
      assert e[2..] == toks[2..][..|toks[2..]| / 2 * 2];
      OddTokenDropped(toks[2..], colors[1..]);
    }
  }

  /** The text a sender produces for a list of points: every coordinate in
      decimal, separated by single spaces. */
  function EncodePoints(ps: seq<Point>): string
  {
    JoinSpace(PointTokens(ps))
  }

  /** Tokens ts hold the coordinates of ps, two per point. */
  predicate CoordTokens(ps: seq<Point>, ts: seq<string>)
  {
    |ts| == 2 * |ps| &&
    forall k :: 0 <= k < |ps| ==> ts[2 * k] == IntToString(ps[k].x) && ts[2 * k + 1] == IntToString(ps[k].y)
  }

  lemma CoordTokensCons(ps: seq<Point>, rest: seq<string>)
    requires ps != [] && CoordTokens(ps[1..], rest)
    ensures CoordTokens(ps, [IntToString(ps[0].x), IntToString(ps[0].y)] + rest)
  {
    hide IntToString;
    var ts := [IntToString(ps[0].x), IntToString(ps[0].y)] + rest;
    forall k | 1 <= k < |ps|
      ensures ts[2 * k] == IntToString(ps[k].x) && ts[2 * k + 1] == IntToString(ps[k].y)
    {
      assert ts[2 * k] == rest[2 * (k - 1)] && ts[2 * k + 1] == rest[2 * (k - 1) + 1];
      assert ps[k] == ps[1..][k - 1];
    }
  }

  function PointTokens(ps: seq<Point>): (ts: seq<string>)
    ensures |ts| == 2 * |ps|
    ensures forall k :: 0 <= k < |ps| ==> ts[2 * k] == IntToString(ps[k].x) && ts[2 * k + 1] == IntToString(ps[k].y)
    decreases |ps|
  {
    hide IntToString;
    if ps == [] then []
    else
      var rest := PointTokens(ps[1..]);
      CoordTokensCons(ps, rest);
      [IntToString(ps[0].x), IntToString(ps[0].y)] + rest
  }

  /** Hit i of the pair loop takes colour i: one getRandom() per pair. */
  lemma {:induction false} PairsColors(toks: seq<string>, colors: seq<Color>)
    requires |colors| >= |toks| / 2
    ensures forall i :: 0 <= i < |ParsePairs(toks, colors).0| ==> ParsePairs(toks, colors).0[i].color == colors[i]
    decreases |toks|
  {
    if |toks| >= 2 && ParseInt(toks[0]).Some? && ParseInt(toks[1]).Some? {
      PairsColors(toks[2..], colors[1..]);
      var r := ParsePairs(toks, colors);
      forall i | 0 <= i < |r.0| ensures r.0[i].color == colors[i] {
        if i > 0 {
          assert r.0[i] == ParsePairs(toks[2..], colors[1..]).0[i - 1];
        }
      }
    }
  }

  /** The hits a chunk adds, and whether the reader survives it; hit i
      takes colour i. */
  function ChunkStep(line: string, colors: seq<Color>): (r: (seq<Hit>, bool))
    requires |colors| >= |Split(line)| / 2
    ensures |r.0| <= |Split(line)| / 2
    ensures forall i :: 0 <= i < |r.0| ==> r.0[i].color == colors[i]
  {
    PairsColors(Split(line), colors);
    ParsePairs(Split(line), colors)
  }

  /** Round trip: a chunk that encodes points is read back as exactly those
      points, in order, with the drawn colours. */
  lemma EncodedChunkRoundTrip(ps: seq<Point>, colors: seq<Color>)
    requires |ps| >= 1 && |colors| >= |ps|
    ensures |Split(EncodePoints(ps))| == 2 * |ps|
    ensures ChunkStep(EncodePoints(ps), colors).1
    ensures ChunkStep(EncodePoints(ps), colors).0 ==
              seq(|ps|, k requires 0 <= k < |ps| => Hit(ps[k].x, ps[k].y, colors[k]))
  {
    hide ParseInt;
    var ts := PointTokens(ps);
    forall i | 0 <= i < |ts| ensures NoSpace(ts[i]) && ts[i] != "" && ParseInt(ts[i]).Some? {
      var k := i / 2;
      ParseIntToString(ps[k].x);
      ParseIntToString(ps[k].y);
      assert i == 2 * k || i == 2 * k + 1;
    }
    SplitJoin(ts);
    AllNumericPairs(ts, colors);
    forall k | 0 <= k < |ps| ensures ParsePairs(ts, colors).0[k] == Hit(ps[k].x, ps[k].y, colors[k]) {
      ParseIntToString(ps[k].x);
      ParseIntToString(ps[k].y);
    }
  }

  /** A chunk that starts with whitespace has an empty first token; once it
      has a second token the first pair cannot parse, so the chunk adds
      nothing and ends the reader. */
  lemma LeadingBlankEndsReader(line: string, colors: seq<Color>)
    requires line != [] && IsSpace(line[0]) && |colors| >= |Split(line)| / 2
    requires |Split(line)| >= 2
    ensures ChunkStep(line, colors) == ([], false)
  {
    assert !NoSpace(line);
    var f := Fields(line);
    assert f[0] == "";
    assert Split(line)[0] == f[0];
  }

  // ---------------------------------------------------------------------
  // The reader thread

  /** The colours `ColorFactory.getRandom()` hands out, from draw `k` on:
      `draw(n)` is the n-th colour of the process's random stream. */
  function Draws(draw: nat -> Color, k: nat, n: nat): (cs: seq<Color>)
    ensures |cs| == n && forall i :: 0 <= i < n ==> cs[i] == draw(k + i)
  {
    seq(n, i requires 0 <= i < n => draw(k + i))
  }

  /** The hits of chunk `line` when the colour stream is at draw `k`. */
  function ChunkFrom(line: string, draw: nat -> Color, k: nat): (seq<Hit>, bool)
  {
    ChunkStep(line, Draws(draw, k, |Split(line)| / 2))
  }

  /** Hits coloured by the stream from draw k. */
  predicate StreamColored(hs: seq<Hit>, draw: nat -> Color, k: nat)
  {
    forall i :: 0 <= i < |hs| ==> hs[i].color == draw(k + i)
  }

  lemma StreamColoredJoin(a: seq<Hit>, b: seq<Hit>, draw: nat -> Color, k: nat)
    requires StreamColored(a, draw, k) && (b == [] || StreamColored(b, draw, k + |a|))
    ensures StreamColored(a + b, draw, k)
  {
    forall i | |a| <= i < |a + b| ensures (a + b)[i].color == draw(k + i) {
      assert (a + b)[i] == b[i - |a|];
    }
  }

  lemma NoHitsColored(draw: nat -> Color, k: nat)
    ensures StreamColored([], draw, k)
  {
  }

  lemma ChunkFromColored(line: string, draw: nat -> Color, k: nat)
    ensures StreamColored(ChunkFrom(line, draw, k).0, draw, k)
  {
    hide Split, ParsePairs;
  }

  /** The hits of a run of chunks: chunk after chunk until one fails; every
      hit takes the next colour of the stream. */
  function RunHits(chunks: seq<string>, draw: nat -> Color, k: nat): (r: seq<Hit>)
    ensures StreamColored(r, draw, k)
    decreases |chunks|
  {
    hide Split, ParsePairs, ChunkFrom, StreamColored;
    if chunks == [] then NoHitsColored(draw, k); []
    else
      var step := ChunkFrom(chunks[0], draw, k);
      var rest := if step.1 then RunHits(chunks[1..], draw, k + |step.0|) else [];
      ChunkFromColored(chunks[0], draw, k);
      StreamColoredJoin(step.0, rest, draw, k);
      step.0 + rest
  }

  /** Unfolding `RunHits` at chunk `i`. */
  lemma RunHitsAt(chunks: seq<string>, draw: nat -> Color, i: nat, k: nat)
    requires i < |chunks|
    ensures RunHits(chunks[i..], draw, k) ==
              ChunkFrom(chunks[i], draw, k).0 +
              (if ChunkFrom(chunks[i], draw, k).1 then RunHits(chunks[i + 1..], draw, k + |ChunkFrom(chunks[i], draw, k).0|) else [])
  {
    hide Split, ParsePairs;
    assert chunks[i..][1..] == chunks[i + 1..];
  }

  /** Every hit of a chunk takes its colour from `colors`, so when those
      are what getRandom() returns, so are the hits' colours. */
  lemma {:induction false} PairsRandomColors(toks: seq<string>, colors: seq<Color>)
    requires |colors| >= |toks| / 2
    requires forall k :: 0 <= k < |colors| ==> RandomColor(colors[k])
    ensures forall i :: 0 <= i < |ParsePairs(toks, colors).0| ==> RandomColor(ParsePairs(toks, colors).0[i].color)
    decreases |toks|
  {
    if |toks| >= 2 && ParseInt(toks[0]).Some? && ParseInt(toks[1]).Some? {
      PairsRandomColors(toks[2..], colors[1..]);
      var r := ParsePairs(toks, colors);
      forall i | 0 <= i < |r.0| ensures RandomColor(r.0[i].color) {
        if i > 0 {
          assert r.0[i] == ParsePairs(toks[2..], colors[1..]).0[i - 1];
        }
      }
    }
  }

  /** The reader gives every hit a colour of the random stream: an opaque
      colour with each channel below 255. */
  lemma RunHitsRandomColors(chunks: seq<string>, draw: nat -> Color, k: nat)
    requires forall n :: RandomColor(draw(n))
    ensures forall i :: 0 <= i < |RunHits(chunks, draw, k)| ==> RandomColor(RunHits(chunks, draw, k)[i].color)
  {
    hide Split, ParsePairs, ChunkFrom, RunHits;
    var r := RunHits(chunks, draw, k);
    forall i | 0 <= i < |r| ensures RandomColor(r[i].color) {
      assert r[i].color == draw(k + i);
    }
  }

  /** No chunks, no hits. */
  lemma RunHitsNone(draw: nat -> Color, k: nat)
    ensures RunHits([], draw, k) == []
  {
  }

  /** What is still owed after one more chunk. */
  lemma Owed(want: seq<Hit>, done: seq<Hit>, step: (seq<Hit>, bool), rest: seq<Hit>)
    requires want == done + (step.0 + (if step.1 then rest else []))
    ensures step.1 ==> want == (done + step.0) + rest
    ensures !step.1 ==> want == done + step.0
  {
  }

  /** The game's hit list, shared with the panel that draws it. */
  class HitList {
    var hits: seq<Hit>

    constructor ()
      ensures hits == []
    {
      hits := [];
    }

    /** The body of the `run()` loop for one connection: split the chunk,
        use (n / 2) * 2 tokens, and append one hit per pair. Returns false
        when a token throws NumberFormatException. */
    method ReadChunk(line: string, colors: seq<Color>) returns (ok: bool)
      requires |colors| >= |Split(line)| / 2
      modifies this
      ensures hits == old(hits) + ChunkStep(line, colors).0
      ensures ok == ChunkStep(line, colors).1
    {
      var list := Split(line);
      ok := ReadTokens(list, colors);
    }

    /** The pairwise loop over the tokens of one chunk. */
    method ReadTokens(list: seq<string>, colors: seq<Color>) returns (ok: bool)
      requires |colors| >= |list| / 2
      modifies this
      ensures hits == old(hits) + ParsePairs(list, colors).0
      ensures ok == ParsePairs(list, colors).1
    {
      hide ParseInt, ParsePairs;
      var length := (|list| / 2) * 2;
      var index := 0;
      ghost var want := ParsePairs(list, colors);
      ghost var done: seq<Hit> := [];
      assert list[0..] == list && colors[0..] == colors;
      while index < length
        invariant 0 <= index <= length && index % 2 == 0
        invariant hits == old(hits) + done
        invariant want.0 == done + PairsFrom(list, colors, index).0
        invariant want.1 == PairsFrom(list, colors, index).1
      {
        PairsFromStep(list, colors, index);
        var x := ParseInt(list[index]);
        if x.None? {
          return false;
        }
        var y := ParseInt(list[index + 1]);
        if y.None? {
          return false;
        }
        var hit := Hit(x.value, y.value, colors[index / 2]);
        assert want.0 == (done + [hit]) + PairsFrom(list, colors, index + 2).0;
        hits := hits + [hit];
        done := done + [hit];
        index := index + 2;
      }
      PairsFromEnd(list, colors, index);
      ok := true;
    }

    /** `run()`: serve the accepted connections in order until a chunk
        throws, the colours coming from the random stream `draw`. Returns
        how many chunks were read. */
    method Run(chunks: seq<string>, draw: nat -> Color) returns (served: nat)
      modifies this
      ensures served <= |chunks|
      ensures hits == old(hits) + RunHits(chunks, draw, 0)
    {
      // The loop only moves chunk results around; the parsing itself is
      // described by ChunkStep and needs none of its definition here.
      hide Split, ParsePairs, ChunkStep, RunHits, ParseInt, StreamColored;
      served := 0;
      var start := |hits|;
      ghost var done: seq<Hit> := [];
      ghost var want := RunHits(chunks, draw, 0);
      assert chunks[0..] == chunks;
      while served < |chunks|
        invariant served <= |chunks|
        invariant hits == old(hits) + done && start == |old(hits)|
        invariant want == done + RunHits(chunks[served..], draw, |done|)
        decreases |chunks| - served
      {
        ghost var k := |done|;
        ghost var step := ChunkFrom(chunks[served], draw, k);
        ghost var rest := RunHits(chunks[served + 1..], draw, k + |step.0|);
        RunHitsAt(chunks, draw, served, k);
        Owed(want, done, step, rest);
        var colors := Draws(draw, |hits| - start, |Split(chunks[served])| / 2);
        var ok := ReadChunk(chunks[served], colors);
        done := done + step.0;
        served := served + 1;
        if !ok {
          return;
        }
        assert |done| == k + |step.0| && want == done + rest;
        assert rest == RunHits(chunks[served..], draw, |done|);
      }
      RunHitsNone(draw, |done|);
      assert chunks[served..] == [];
    }
  }
}
