/**
  The clipboard text of copied order-list cells:
  "ORDER_COPY:" width "," height "," and then width * height pattern numbers,
  row by row, separated by commas with none after the last. Reading it back
  follows the pattern ^ORDER_COPY:(\d+),(\d+),(.+)$ and then checks the sizes
  and every field before a single cell is accepted.
 */
module OrderClipboard {
  import opened Wrappers
  import opened Decimal
  import opened Grids

  const HEADER: string := "ORDER_COPY:"

  /** Fields joined with commas between them. */
  function Join(fields: seq<string>): (s: string)
    requires |fields| >= 1
    decreases |fields|
  {
    if |fields| == 1 then fields[0] else fields[0] + "," + Join(fields[1..])
  }

  /** The text cut at every comma; an empty text or adjacent commas give empty fields. */
  function Split(s: string): (fields: seq<string>)
    ensures |fields| >= 1
    ensures forall k :: 0 <= k < |fields| ==> ',' !in fields[k]
    decreases |s|
  {
    if |s| == 0 then [""]
    else if s[0] == ',' then [""] + Split(s[1..])
    else
      var rest := Split(s[1..]);
      [[s[0]] + rest[0]] + rest[1..]
  }

  /** A comma-free prefix joins the first field of what follows it. */
  lemma {:induction false} SplitPrefix(x: string, t: string)
    requires ',' !in x
    ensures Split(x + t) == [x + Split(t)[0]] + Split(t)[1..]
    decreases |x|
  {
    if |x| > 0 {
      SplitPrefix(x[1..], t);
      assert (x + t)[1..] == x[1..] + t;
      assert [x[0]] + (x[1..] + Split(t)[0]) == x + Split(t)[0];
    } else {
      assert x + t == t;
      assert x + Split(t)[0] == Split(t)[0];
    }
  }

  /** Cutting joined comma-free fields at the commas gives the fields back. */
  lemma {:induction false} SplitJoin(fields: seq<string>)
    requires |fields| >= 1 && forall k :: 0 <= k < |fields| ==> ',' !in fields[k]
    ensures Split(Join(fields)) == fields
    decreases |fields|
  {
    if |fields| == 1 {
      SplitPrefix(fields[0], "");
      assert fields[0] + "" == fields[0];
    } else {
      var rest := Join(fields[1..]);
      SplitJoin(fields[1..]);
      SplitPrefix(fields[0], "," + rest);
      assert ("," + rest)[1..] == rest;
      assert Split("," + rest) == [""] + fields[1..];
      assert fields[0] + "" == fields[0];
      assert fields[0] + "," + rest == fields[0] + ("," + rest);
      assert fields == [fields[0]] + fields[1..];
    }
  }

  /** The longest run of digits at the start of the text. */
  function DigitRun(s: string): (d: string)
    ensures |d| <= |s| && d == s[..|d|] && AllDigits(d)
    ensures |d| < |s| ==> !IsDigit(s[|d|])
    decreases |s|
  {
    if |s| == 0 || !IsDigit(s[0]) then "" else [s[0]] + DigitRun(s[1..])
  }

  /** The digit run of a digit string followed by a non-digit is that string. */
  lemma {:induction false} DigitRunOf(d: string, t: string)
    requires AllDigits(d) && |t| >= 1 && !IsDigit(t[0])
    ensures DigitRun(d + t) == d
    decreases |d|
  {
    if |d| > 0 {
      DigitRunOf(d[1..], t);
      assert (d + t)[1..] == d[1..] + t;
    } else {
      assert d + t == t;
    }
  }

  /** The three captured groups of a matching clipboard text. */
  datatype Captures = Captures(width: string, height: string, data: string)

  /** A group of digits closed by a comma, and the text after the comma. */
  function NumberThenComma(s: string): (r: Option<(string, string)>)
    ensures r.Some? ==> |r.value.0| >= 1 && AllDigits(r.value.0) && s == r.value.0 + "," + r.value.1
  {
    var d := DigitRun(s);
    if |d| == 0 || |d| == |s| || s[|d|] != ',' then None
    else
      assert s == d + "," + s[|d| + 1..];
      Some((d, s[|d| + 1..]))
  }

  lemma NumberThenCommaBuilt(d: string, t: string)
    requires |d| >= 1 && AllDigits(d)
    ensures NumberThenComma(d + "," + t) == Some((d, t))
  {
    assert d + "," + t == d + ("," + t);
    DigitRunOf(d, "," + t);
    assert (d + "," + t)[|d|] == ',';
    assert (d + "," + t)[|d| + 1..] == t;
  }

  /**
    The data group and the end anchor: the rest of the text, non-empty and
    free of line breaks, except for one final line break the anchor may stand
    before.
   */
  function DataToEnd(tail: string): (r: Option<string>)
    ensures r.Some? ==> |r.value| >= 1 && '\n' !in r.value && (tail == r.value || tail == r.value + "\n")
  {
    var data := if |tail| > 0 && tail[|tail| - 1] == '\n' then tail[..|tail| - 1] else tail;
    if |data| == 0 || '\n' in data then None
    else
      assert tail == data || tail == data + "\n";
      Some(data)
  }

  lemma DataToEndBuilt(data: string)
    requires |data| >= 1 && '\n' !in data
    ensures DataToEnd(data) == Some(data)
  {
    assert data[|data| - 1] in data;
  }

  /**
    Matching the clipboard pattern. The two digit groups cannot give back
    digits, since a comma must follow each, so the match is unique.
   */
  function MatchCommand(text: string): (m: Option<Captures>)
    ensures m.Some? ==>
              && |m.value.width| >= 1 && AllDigits(m.value.width)
              && |m.value.height| >= 1 && AllDigits(m.value.height)
              && |m.value.data| >= 1 && '\n' !in m.value.data
              && (text == Body(m.value) || text == Body(m.value) + "\n")
  {
    if |text| < |HEADER| || text[..|HEADER|] != HEADER then None
    else
      var rest := text[|HEADER|..];
      assert text == HEADER + rest;
      match NumberThenComma(rest)
      case None => None
      case Some((wd, rest2)) =>
        match NumberThenComma(rest2)
        case None => None
        case Some((hd, tail)) =>
          match DataToEnd(tail)
          case None => None
          case Some(data) =>
            Assemble(text, rest, wd, rest2, hd, tail, data);
            Some(Captures(wd, hd, data))
  }

  /** The text matched, reassembled from its groups. */
  function Body(c: Captures): string {
    HEADER + c.width + "," + c.height + "," + c.data
  }

  lemma Assemble(text: string, rest: string, wd: string, rest2: string, hd: string, tail: string, data: string)
    requires text == HEADER + rest && rest == wd + "," + rest2 && rest2 == hd + "," + tail
    requires tail == data || tail == data + "\n"
    ensures text == Body(Captures(wd, hd, data)) || text == Body(Captures(wd, hd, data)) + "\n"
  {
    var b := Body(Captures(wd, hd, data));
    assert text == HEADER + wd + "," + hd + "," + tail;
    if tail == data + "\n" {
      assert text == b + "\n";
    }
  }

  /** A text built from two digit groups and line-free data matches with exactly those groups. */
  lemma MatchBuilt(wd: string, hd: string, data: string)
    requires |wd| >= 1 && AllDigits(wd) && |hd| >= 1 && AllDigits(hd)
    requires |data| >= 1 && '\n' !in data
    ensures MatchCommand(HEADER + wd + "," + hd + "," + data) == Some(Captures(wd, hd, data))
  {
    var text := HEADER + wd + "," + hd + "," + data;
    var rest := text[|HEADER|..];
    assert text[..|HEADER|] == HEADER;
    assert rest == wd + "," + (hd + "," + data);
    NumberThenCommaBuilt(wd, hd + "," + data);
    NumberThenCommaBuilt(hd, data);
    DataToEndBuilt(data);
  }

  datatype ParseError = NoMatch | ZeroSize | FieldCount | BadField

  /** Every field reads as a 32-bit integer. */
  predicate AllInts(fields: seq<string>) {
    forall k :: 0 <= k < |fields| ==> ToInt(fields[k]).Some?
  }

  /** The values of fields that all read as integers. */
  function IntValues(fields: seq<string>): (vals: seq<int>)
    requires AllInts(fields)
    ensures |vals| == |fields| && forall k :: 0 <= k < |fields| ==> Some(vals[k]) == ToInt(fields[k])
  {
    seq(|fields|, k requires 0 <= k < |fields| => ToInt(fields[k]).value)
  }

  /** Exactly w * h fields, none of them empty: no field was dropped as empty. */
  predicate FieldCountOk(fields: seq<string>, w: nat, h: nat) {
    |fields| == w * h && forall k :: 0 <= k < |fields| ==> fields[k] != ""
  }

  /** The grid whose cell (i, j) is the value of field i * w + j. */
  function Cells(fields: seq<string>, w: nat, h: nat): (cells: seq<seq<int>>)
    requires |fields| == w * h && AllInts(fields)
    ensures |cells| == h && Rectangular(cells, w)
    ensures forall i :: 0 <= i < h ==> cells[i] == RowOf(IntValues(fields), w, h, i)
  {
    Unflatten(IntValues(fields), w, h)
  }

  /** The checks after the match, on the two sizes and the data fields. */
  function ParseFields(w: nat, h: nat, fields: seq<string>): (r: Result<seq<seq<int>>, ParseError>)
    ensures r == Failure(ZeroSize) <==> w == 0 || h == 0
    ensures r == Failure(FieldCount) <==> w != 0 && h != 0 && !FieldCountOk(fields, w, h)
    ensures r == Failure(BadField) <==> w != 0 && h != 0 && FieldCountOk(fields, w, h) && !AllInts(fields)
    ensures r.Success? <==> w != 0 && h != 0 && FieldCountOk(fields, w, h) && AllInts(fields)
    ensures r.Success? ==> r.value == Cells(fields, w, h)
  {
    if w == 0 || h == 0 then Failure(ZeroSize)
    else if !FieldCountOk(fields, w, h) then Failure(FieldCount)
    else if !AllInts(fields) then Failure(BadField)
    else Success(Cells(fields, w, h))
  }

  /**
    Reading clipboard text as a grid of pattern numbers. The text must match
    the pattern; width and height are read as unsigned 32-bit numbers and
    neither may be 0; the data must cut into exactly width * height fields,
    none of them empty; and every field must read as a 32-bit integer.
   */
  function Parse(text: string): (r: Result<seq<seq<int>>, ParseError>)
    ensures r == Failure(NoMatch) <==> MatchCommand(text).None?
    ensures MatchCommand(text).Some? ==>
              r == ParseFields(ToUInt(MatchCommand(text).value.width), ToUInt(MatchCommand(text).value.height),
                               Split(MatchCommand(text).value.data))
  {
    match MatchCommand(text)
    case None => Failure(NoMatch)
    case Some(m) => ParseFields(ToUInt(m.width), ToUInt(m.height), Split(m.data))
  }

  /** The pattern numbers of a grid as decimal fields, row by row. */
  function ShowFields(vals: seq<int>): (fields: seq<string>)
    ensures |fields| == |vals| && forall k :: 0 <= k < |vals| ==> fields[k] == ShowInt(vals[k])
  {
    seq(|vals|, k requires 0 <= k < |vals| => ShowInt(vals[k]))
  }

  /** The clipboard text for a w-by-h grid of pattern numbers. */
  function Serialize(grid: seq<seq<int>>, w: nat): (text: string)
    requires |grid| >= 1 && w >= 1 && Rectangular(grid, w)
  {
    FlattenLength(grid, w);
    HEADER + Show(w) + "," + Show(|grid|) + "," + Join(ShowFields(Flatten(grid)))
  }

  /** Decimal fields contain neither commas nor line breaks. */
  lemma ShowIntPlain(x: int)
    ensures ',' !in ShowInt(x) && '\n' !in ShowInt(x)
  {
  }

  /** Joining non-empty fields that have no line breaks gives non-empty text without line breaks. */
  lemma {:induction false} JoinPlain(fields: seq<string>)
    requires |fields| >= 1
    requires forall k :: 0 <= k < |fields| ==> |fields[k]| >= 1 && '\n' !in fields[k]
    ensures |Join(fields)| >= 1 && '\n' !in Join(fields)
    decreases |fields|
  {
    if |fields| > 1 {
      JoinPlain(fields[1..]);
      assert Join(fields) == fields[0] + "," + Join(fields[1..]);
    }
  }

  /** Integers that fit in 32 bits. */
  predicate Int32Grid(grid: seq<seq<int>>) {
    forall i, j :: 0 <= i < |grid| && 0 <= j < |grid[i]| ==> INT32_MIN <= grid[i][j] <= INT32_MAX
  }

  /**
    The clipboard round trip: the text written for any non-empty grid of 32-bit
    pattern numbers reads back as the same grid.
   */
  lemma ParseSerialize(grid: seq<seq<int>>, w: nat)
    requires |grid| >= 1 && w >= 1 && Rectangular(grid, w)
    requires w < UINT32_LIMIT && |grid| < UINT32_LIMIT && Int32Grid(grid)
    ensures Parse(Serialize(grid, w)) == Success(grid)
  {
    var h := |grid|;
    FlattenLength(grid, w);
    var vals := Flatten(grid);
    var fields := ShowFields(vals);
    FlattenInt32(grid, w);
    ShowFieldsRead(vals);
    SerializeMatches(grid, w);
    assert FieldCountOk(fields, w, h);
    UnflattenFlatten(grid, w);
    assert Cells(fields, w, h) == grid;
  }

  /** Every entry of the flattened grid fits in 32 bits. */
  lemma FlattenInt32(grid: seq<seq<int>>, w: nat)
    requires Rectangular(grid, w) && Int32Grid(grid)
    ensures |Flatten(grid)| == |grid| * w
    ensures forall k :: 0 <= k < |Flatten(grid)| ==> INT32_MIN <= Flatten(grid)[k] <= INT32_MAX
  {
    FlattenLength(grid, w);
    forall k | 0 <= k < |Flatten(grid)|
      ensures INT32_MIN <= Flatten(grid)[k] <= INT32_MAX
    {
      var i, j := FlattenPosition(grid, w, k);
    }
  }

  /** Written 32-bit values are plain non-empty fields that read back as those values. */
  lemma ShowFieldsRead(vals: seq<int>)
    requires forall k :: 0 <= k < |vals| ==> INT32_MIN <= vals[k] <= INT32_MAX
    ensures forall k :: 0 <= k < |vals| ==>
              |ShowFields(vals)[k]| >= 1 && ',' !in ShowFields(vals)[k] && '\n' !in ShowFields(vals)[k]
    ensures AllInts(ShowFields(vals)) && IntValues(ShowFields(vals)) == vals
  {
    var fields := ShowFields(vals);
    forall k | 0 <= k < |fields|
      ensures |fields[k]| >= 1 && ',' !in fields[k] && '\n' !in fields[k]
      ensures ToInt(fields[k]) == Some(vals[k])
    {
      ShowIntPlain(vals[k]);
      ToIntShowInt(vals[k]);
    }
    assert IntValues(fields) == vals;
  }

  /** The written text matches, with the two sizes and the written fields as its groups. */
  lemma SerializeMatches(grid: seq<seq<int>>, w: nat)
    requires |grid| >= 1 && w >= 1 && Rectangular(grid, w)
    requires w < UINT32_LIMIT && |grid| < UINT32_LIMIT
    requires forall k :: 0 <= k < |ShowFields(Flatten(grid))| ==>
               |ShowFields(Flatten(grid))[k]| >= 1 && ',' !in ShowFields(Flatten(grid))[k] &&
               '\n' !in ShowFields(Flatten(grid))[k]
    ensures |Flatten(grid)| >= 1
    ensures Parse(Serialize(grid, w)) == ParseFields(w, |grid|, ShowFields(Flatten(grid)))
  {
    FlattenLength(grid, w);
    var fields := ShowFields(Flatten(grid));
    JoinPlain(fields);
    MatchBuilt(Show(w), Show(|grid|), Join(fields));
    ToUIntShow(w);
    ToUIntShow(|grid|);
    SplitJoin(fields);
  }
}
