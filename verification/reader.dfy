/** Reading the inputs: the configuration document's top-level check, the
    choice of the positions CSV path, the cash settings, and the scan of
    the CSV rows into tickers and quantities. The YAML and CSV parsers
    themselves are not modelled: the document arrives as a `Value`, the
    rows as `Row`s, and `float()` as the parameter `parse`. */
module Reader {
  import opened Common

  datatype ReaderError =
    | NotAMapping
    | NoCsvPath
    | CsvPathNotText(value: Value)
    | MissingQuantity
    | InvalidQuantity(raw: Option<string>)
    | NoHeaders
    | NoTickers
    | CashIncomplete
    | CashNotLists

  // ---------------------------------------------------------------------------
  // The configuration document
  // ---------------------------------------------------------------------------

  /** `load_config`, after `yaml.safe_load`: the top level must be a mapping. */
  function LoadConfig(doc: Value): (r: Result<seq<(string, Value)>, ReaderError>)
    ensures r.Ok? <==> doc.Map?
    ensures r.Ok? ==> r.value == doc.entries
    ensures r.Err? ==> r.error == NotAMapping
  {
    match doc
    case Map(entries) => Ok(entries)
    case _ => Err(NotAMapping)
  }

  /** `config.get(key)`: a missing key reads as `None`, as does an explicit null. */
  function Get(config: seq<(string, Value)>, key: string): Value {
    GetOr(config, key, Null)
  }

  /** Python truthiness of a YAML value. */
  predicate Truthy(v: Value) {
    match v
    case Null => false
    case Bool(b) => b
    case Num(x) => x != 0.0
    case Str(s) => s != ""
    case List(items) => items != []
    case Map(entries) => entries != []
  }

  // ---------------------------------------------------------------------------
  // Paths
  // ---------------------------------------------------------------------------

  /** A POSIX path as `pathlib` holds it: rooted or not, and its parts. */
  datatype FsPath = FsPath(absolute: bool, parts: seq<string>)

  /** `s.split("/")`. */
  function Segments(s: string): (r: seq<string>)
    ensures |r| > 0
  {
    if s == [] then [""]
    else if s[0] == '/' then [""] + Segments(s[1..])
    else
      var rest := Segments(s[1..]);
      [[s[0]] + rest[0]] + rest[1..]
  }

  /** The segments `pathlib` keeps: empty ones (from `//` or a trailing
      `/`) and `.` disappear. */
  function KeptSegments(segs: seq<string>): seq<string> {
    if segs == [] then []
    else (if segs[0] == "" || segs[0] == "." then [] else [segs[0]]) + KeptSegments(segs[1..])
  }

  /** `Path(s)`. */
  function ParsePath(s: string): FsPath {
    FsPath(s != [] && s[0] == '/', KeptSegments(Segments(s)))
  }

  /** Parts as `pathlib` keeps them: non-empty, not `.`, without `/`. */
  predicate PartsOk(parts: seq<string>) {
    forall i :: 0 <= i < |parts| ==> parts[i] != "" && parts[i] != "." && '/' !in parts[i]
  }

  /** `p.parent`: the path without its last part; a path without parts is
      its own parent. */
  function Parent(p: FsPath): FsPath {
    if p.parts == [] then p else p.(parts := p.parts[..|p.parts| - 1])
  }

  /** `a / b`: an absolute `b` replaces `a`, a relative one is appended. */
  function Join(a: FsPath, b: FsPath): FsPath {
    if b.absolute then b else FsPath(a.absolute, a.parts + b.parts)
  }

  function JoinSlash(parts: seq<string>): string {
    if parts == [] then ""
    else if |parts| == 1 then parts[0]
    else parts[0] + "/" + JoinSlash(parts[1..])
  }

  /** `str(p)`. */
  function Render(p: FsPath): string {
    if p.absolute then "/" + JoinSlash(p.parts)
    else if p.parts == [] then "."
    else JoinSlash(p.parts)
  }

  lemma {:induction false} SegmentsWord(w: string, rest: string)
    requires '/' !in w
    ensures Segments(w + "/" + rest) == [w] + Segments(rest)
    ensures Segments(w) == [w]
  {
    if w != [] {
      assert (w + "/" + rest)[1..] == w[1..] + "/" + rest;
      assert (w + "/" + rest)[0] == w[0];
      SegmentsWord(w[1..], rest);
      assert [w[0]] + w[1..] == w;
    } else {
      assert w + "/" + rest == "/" + rest;
      assert ("/" + rest)[1..] == rest;
    }
  }

  lemma {:induction false} SegmentsJoin(parts: seq<string>)
    requires parts != [] && PartsOk(parts)
    ensures Segments(JoinSlash(parts)) == parts
  {
    assert '/' !in parts[0];
    if |parts| == 1 {
      SegmentsWord(parts[0], "");
    } else {
      SegmentsJoin(parts[1..]);
      SegmentsWord(parts[0], JoinSlash(parts[1..]));
    }
  }

  lemma {:induction false} KeptSegmentsOk(segs: seq<string>)
    requires PartsOk(segs)
    ensures KeptSegments(segs) == segs
  {
    if segs != [] {
      KeptSegmentsOk(segs[1..]);
    }
  }

  lemma {:induction false} KeptSegmentsPartsOk(s: string)
    ensures PartsOk(KeptSegments(Segments(s)))
  {
    SegmentsNoSlash(s);
    KeptSegmentsFilter(Segments(s));
  }

  lemma {:induction false} SegmentsNoSlash(s: string)
    ensures forall i :: 0 <= i < |Segments(s)| ==> '/' !in Segments(s)[i]
  {
    if s != [] {
      SegmentsNoSlash(s[1..]);
    }
  }

  lemma {:induction false} KeptSegmentsFilter(segs: seq<string>)
    requires forall i :: 0 <= i < |segs| ==> '/' !in segs[i]
    ensures PartsOk(KeptSegments(segs))
  {
    if segs != [] {
      KeptSegmentsFilter(segs[1..]);
    }
  }

  /** Parsing always yields well-formed parts. */
  lemma ParsedPartsOk(s: string)
    ensures PartsOk(ParsePath(s).parts)
  {
    KeptSegmentsPartsOk(s);
  }

  /** Joined well-formed parts start with a character of the first part, not a separator. */
  lemma {:induction false} JoinSlashStart(parts: seq<string>)
    requires parts != [] && PartsOk(parts)
    ensures JoinSlash(parts) != [] && JoinSlash(parts)[0] != '/'
  {
    assert parts[0] != "" && '/' !in parts[0];
    if |parts| > 1 {
      assert JoinSlash(parts) == parts[0] + "/" + JoinSlash(parts[1..]);
      assert JoinSlash(parts)[0] == parts[0][0];
    }
    assert parts[0][0] in parts[0];
  }

  /** The paths without parts, `/` and `.`, read back as themselves. */
  lemma ParseRenderEmpty(p: FsPath)
    requires p.parts == []
    ensures ParsePath(Render(p)) == p
  {
    var text := Render(p);
    if p.absolute {
      assert text == "/" && text[0] == '/' && text[1..] == "";
      assert Segments(text) == [""] + Segments("") == ["", ""];
      assert KeptSegments(["", ""]) == [];
    } else {
      assert text == "." && text[1..] == "" && text[0] == '.';
      assert Segments(text[1..]) == [""];
      assert [text[0]] + "" == ".";
      assert Segments(text) == ["."];
      assert KeptSegments(["."]) == [];
    }
  }

  /** A path with well-formed parts reads back as itself. */
  lemma ParseRender(p: FsPath)
    requires PartsOk(p.parts)
    ensures ParsePath(Render(p)) == p
  {
    if p.parts == [] {
      ParseRenderEmpty(p);
    } else {
      var text := Render(p);
      var joined := JoinSlash(p.parts);
      SegmentsJoin(p.parts);
      KeptSegmentsOk(p.parts);
      JoinSlashStart(p.parts);
      if p.absolute {
        assert text == "/" + joined && text[0] == '/' && text[1..] == joined;
        assert Segments(text) == [""] + p.parts;
        assert KeptSegments([""] + p.parts) == KeptSegments(p.parts) by {
          assert ([""] + p.parts)[1..] == p.parts;
        }
      } else {
        assert text == joined;
      }
    }
  }

  // ---------------------------------------------------------------------------
  // The positions CSV path
  // ---------------------------------------------------------------------------

  /** `CSV_PATH_KEYS`, in priority order. */
  const CsvPathKeys: seq<string> := ["positions_csv", "csv_path", "positions_path"]

  /** The value of the first key whose value is truthy. */
  function CsvValue(config: seq<(string, Value)>, keys: seq<string>): (r: Option<Value>)
    ensures r.None? <==> forall i :: 0 <= i < |keys| ==> !Truthy(Get(config, keys[i]))
    ensures r.Some? ==> exists i ::
      && 0 <= i < |keys| && Get(config, keys[i]) == r.value && Truthy(r.value)
      && forall j :: 0 <= j < i ==> !Truthy(Get(config, keys[j]))
  {
    if keys == [] then None
    else if Truthy(Get(config, keys[0])) then Some(Get(config, keys[0]))
    else
      var rest := CsvValue(config, keys[1..]);
      assert forall i :: 0 < i < |keys| ==> keys[i] == keys[1..][i - 1];
      rest
  }

  /** `resolve_csv_path(config_path, config)`, without `resolve()`. */
  function CsvPathSpec(configPath: FsPath, config: seq<(string, Value)>): (r: Result<FsPath, ReaderError>)
    ensures r.Err? <==> CsvValue(config, CsvPathKeys).None? || !CsvValue(config, CsvPathKeys).value.Str?
    ensures r.Ok? ==>
      var p := ParsePath(CsvValue(config, CsvPathKeys).value.s);
      r.value == if p.absolute then p else FsPath(configPath.absolute, Parent(configPath).parts + p.parts)
  {
    match CsvValue(config, CsvPathKeys)
    case None => Err(NoCsvPath)
    case Some(v) =>
      if !v.Str? then Err(CsvPathNotText(v))
      else
        var p := ParsePath(v.s);
        if p.absolute then Ok(p) else Ok(Join(Parent(configPath), p))
  }

  /** The loop over `CSV_PATH_KEYS` with its early `break`. */
  method ResolveCsvPath(configPath: FsPath, config: seq<(string, Value)>) returns (r: Result<FsPath, ReaderError>)
    ensures r == CsvPathSpec(configPath, config)
  {
    var csvValue := Null;
    var i := 0;
    while i < |CsvPathKeys|
      invariant 0 <= i <= |CsvPathKeys|
      invariant !Truthy(csvValue)
      invariant CsvValue(config, CsvPathKeys) == CsvValue(config, CsvPathKeys[i..])
    {
      csvValue := Get(config, CsvPathKeys[i]);
      if Truthy(csvValue) {
        break;
      }
      assert CsvPathKeys[i..][1..] == CsvPathKeys[i + 1..];
      i := i + 1;
    }
    if !Truthy(csvValue) {
      return Err(NoCsvPath);
    }
    assert CsvValue(config, CsvPathKeys) == Some(csvValue);
    if !csvValue.Str? {
      return Err(CsvPathNotText(csvValue));
    }
    var csvPath := ParsePath(csvValue.s);
    if !csvPath.absolute {
      csvPath := Join(Parent(configPath), csvPath);
    }
    return Ok(csvPath);
  }

  // ---------------------------------------------------------------------------
  // Quantities
  // ---------------------------------------------------------------------------

  /** `str.isspace` for one character. */
  predicate IsSpace(c: char) {
    || c == ' ' || '\t' <= c <= '\r' || '\U{1c}' <= c <= '\U{1f}' || c == '\U{85}' || c == '\U{a0}'
    || c == '\U{1680}' || '\U{2000}' <= c <= '\U{200a}' || c == '\U{2028}' || c == '\U{2029}'
    || c == '\U{202f}' || c == '\U{205f}' || c == '\U{3000}'
  }

  function TrimLeft(s: string): string {
    if s != [] && IsSpace(s[0]) then TrimLeft(s[1..]) else s
  }

  function TrimRight(s: string): string {
    if s != [] && IsSpace(s[|s| - 1]) then TrimRight(s[..|s| - 1]) else s
  }

  lemma {:induction false} TrimLeftSuffix(s: string)
    ensures var r := TrimLeft(s);
      && |r| <= |s| && r == s[|s| - |r|..]
      && (forall k :: 0 <= k < |s| - |r| ==> IsSpace(s[k]))
      && (r != [] ==> !IsSpace(r[0]))
  {
    if s != [] && IsSpace(s[0]) {
      TrimLeftSuffix(s[1..]);
      var r := TrimLeft(s[1..]);
      assert forall k :: 1 <= k < |s| - |r| ==> s[k] == s[1..][k - 1];
    }
  }

  lemma {:induction false} TrimRightPrefix(s: string)
    ensures var r := TrimRight(s);
      && |r| <= |s| && r == s[..|r|]
      && (forall k :: |r| <= k < |s| ==> IsSpace(s[k]))
      && (r != [] ==> !IsSpace(r[|r| - 1]))
  {
    if s != [] && IsSpace(s[|s| - 1]) {
      TrimRightPrefix(s[..|s| - 1]);
    }
  }

  /** `s.strip()`. */
  function Strip(s: string): string {
    TrimRight(TrimLeft(s))
  }

  /** Stripping leaves the slice of `s` between its leading and trailing
      whitespace, which starts and ends with a non-space. */
  lemma StripSlice(s: string)
    ensures exists i, j ::
      && 0 <= i <= j <= |s| && Strip(s) == s[i..j]
      && (forall k :: 0 <= k < i ==> IsSpace(s[k]))
      && (forall k :: j <= k < |s| ==> IsSpace(s[k]))
    ensures Strip(s) != [] ==> !IsSpace(Strip(s)[0]) && !IsSpace(Strip(s)[|Strip(s)| - 1])
  {
    var left := TrimLeft(s);
    var r := TrimRight(left);
    TrimLeftSuffix(s);
    TrimRightPrefix(left);
    var i := |s| - |left|;
    assert r == s[i..i + |r|];
    assert forall k :: i + |r| <= k < |s| ==> s[k] == left[k - i];
  }

  /** `s.replace(",", "")`. */
  function RemoveCommas(s: string): string {
    if s == [] then []
    else (if s[0] == ',' then [] else [s[0]]) + RemoveCommas(s[1..])
  }

  /** Removing the commas leaves no comma, and leaves nothing exactly
      when there was nothing but commas. */
  lemma {:induction false} RemoveCommasSpec(s: string)
    ensures ',' !in RemoveCommas(s)
    ensures RemoveCommas(s) == [] <==> forall k :: 0 <= k < |s| ==> s[k] == ','
  {
    if s != [] {
      RemoveCommasSpec(s[1..]);
      assert forall k :: 1 <= k < |s| ==> s[k] == s[1..][k - 1];
    }
  }

  /** Every other character is kept, in order. */
  lemma {:induction false} RemoveCommasOrder(s: string)
    ensures IsSubsequence(RemoveCommas(s), s)
  {
    if s != [] {
      RemoveCommasOrder(s[1..]);
      var rest := RemoveCommas(s[1..]);
      if s[0] == ',' {
        assert RemoveCommas(s) == rest;
      } else {
        var r := [s[0]] + rest;
        assert r[0] == s[0] && r[1..] == rest;
      }
    }
  }

  /** Every other character is kept as often as it occurs. */
  lemma {:induction false} RemoveCommasCount(s: string)
    ensures multiset(RemoveCommas(s)) == multiset(s)[',' := 0]
  {
    if s != [] {
      RemoveCommasCount(s[1..]);
      assert s == [s[0]] + s[1..];
      assert multiset(s) == multiset([s[0]]) + multiset(s[1..]);
    }
  }

  /** `str(raw_value or "").strip().replace(",", "")`. */
  function Cleaned(raw: Option<string>): string {
    RemoveCommas(Strip(match raw case None => "" case Some(s) => s))
  }

  /** `parse_quantity(raw_value)`, with `float()` given as `parse`. */
  function ParseQuantity(raw: Option<string>, parse: string -> Option<real>): (r: Result<real, ReaderError>)
    ensures r.Err? ==> r.error == MissingQuantity || r.error == InvalidQuantity(raw)
    ensures r.Ok? ==> Cleaned(raw) != "" && parse(Cleaned(raw)) == Some(r.value)
    ensures Cleaned(raw) == "" ==> r == Err(MissingQuantity)
    ensures Cleaned(raw) != "" && parse(Cleaned(raw)).None? ==> r == Err(InvalidQuantity(raw))
    ensures Cleaned(raw) != "" && parse(Cleaned(raw)).Some? ==> r == Ok(parse(Cleaned(raw)).value)
  {
    var cleaned := Cleaned(raw);
    if cleaned == "" then Err(MissingQuantity)
    else match parse(cleaned)
      case None => Err(InvalidQuantity(raw))
      case Some(x) => Ok(x)
  }

  /** A quantity is missing exactly when the cell is absent or, once
      stripped, holds nothing but commas; `float()` sees no commas. */
  lemma QuantityMissing(raw: Option<string>, parse: string -> Option<real>)
    ensures ParseQuantity(raw, parse) == Err(MissingQuantity) <==>
      raw.None? || forall k :: 0 <= k < |Strip(raw.value)| ==> Strip(raw.value)[k] == ','
    ensures ',' !in Cleaned(raw)
  {
    RemoveCommasSpec(Strip(match raw case None => "" case Some(s) => s));
  }

  // ---------------------------------------------------------------------------
  // The row scan of `read_positions`
  // ---------------------------------------------------------------------------

  /** What `row.get("Symbol")` and `row.get("Quantity")` give for one CSV
      row, after the header names have been stripped. */
  datatype Row = Row(symbol: Option<string>, quantity: Option<string>)

  /** `(row.get("Symbol") or "").strip()`. */
  function Symbol(row: Row): string {
    Strip(match row.symbol case None => "" case Some(s) => s)
  }

  /** `str.upper` on the letters that can make a symbol read `SPAXX**`:
      the ASCII letters, and the long s, which upper-cases to `S`. */
  function Upper(s: string): (r: string)
    ensures |r| == |s|
  {
    seq(|s|, i requires 0 <= i < |s| =>
      if 'a' <= s[i] <= 'z' then (s[i] as int - 32) as char
      else if s[i] == '\U{17f}' then 'S'
      else s[i])
  }

  /** The money-market sweep position, skipped in any letter case. */
  predicate IsSweep(symbol: string) {
    Upper(symbol) == "SPAXX**"
  }

  /** The rows that become positions: those before the first row without a
      symbol, except the sweep position. */
  function KeptRows(rows: seq<Row>): seq<Row> {
    if rows == [] || Symbol(rows[0]) == "" then []
    else (if IsSweep(Symbol(rows[0])) then [] else [rows[0]]) + KeptRows(rows[1..])
  }

  /** The loop with its `break`, `continue` and raising `parse_quantity`. */
  function Scan(rows: seq<Row>, parse: string -> Option<real>): (r: Result<(seq<string>, seq<real>), ReaderError>)
    ensures r.Ok? ==> |r.value.0| == |r.value.1|
  {
    if rows == [] then Ok(([], []))
    else
      var symbol := Symbol(rows[0]);
      if symbol == "" then Ok(([], []))
      else if IsSweep(symbol) then Scan(rows[1..], parse)
      else match ParseQuantity(rows[0].quantity, parse)
        case Err(e) => Err(e)
        case Ok(q) =>
          match Scan(rows[1..], parse)
          case Err(e) => Err(e)
          case Ok(rest) => Ok(([symbol] + rest.0, [q] + rest.1))
  }

  /** Nothing after the first row without a symbol is read. */
  lemma {:induction false} KeptRowsStop(rows: seq<Row>, k: nat, parse: string -> Option<real>)
    requires k < |rows| && Symbol(rows[k]) == ""
    ensures KeptRows(rows) == KeptRows(rows[..k])
    ensures Scan(rows, parse) == Scan(rows[..k], parse)
  {
    if k > 0 {
      KeptRowsStop(rows[1..], k - 1, parse);
      assert rows[1..][..k - 1] == rows[..k][1..];
    }
  }

  /** Kept rows keep their order. */
  lemma {:induction false} KeptRowsOrder(rows: seq<Row>)
    ensures IsSubsequence(KeptRows(rows), rows)
  {
    if rows != [] && Symbol(rows[0]) != "" {
      var rest := KeptRows(rows[1..]);
      KeptRowsOrder(rows[1..]);
      if IsSweep(Symbol(rows[0])) {
        assert KeptRows(rows) == rest;
        SubsequenceCons(rest, rows[0], rows[1..]);
        assert [rows[0]] + rows[1..] == rows;
      } else {
        var kept := KeptRows(rows);
        assert kept == [rows[0]] + rest;
        assert kept[0] == rows[0] && kept[1..] == rest;
      }
    }
  }

  /** Each kept row has a symbol, and it is not the sweep position. */
  lemma {:induction false} KeptRowsSymbols(rows: seq<Row>)
    ensures forall i :: 0 <= i < |KeptRows(rows)| ==>
      Symbol(KeptRows(rows)[i]) != "" && !IsSweep(Symbol(KeptRows(rows)[i]))
  {
    if rows != [] && Symbol(rows[0]) != "" {
      KeptRowsSymbols(rows[1..]);
      var rest := KeptRows(rows[1..]);
      if !IsSweep(Symbol(rows[0])) {
        assert forall i :: 1 <= i < |rest| + 1 ==> ([rows[0]] + rest)[i] == rest[i - 1];
      }
    }
  }

  /** Parsing the quantity of each given row in turn, stopping at the
      first failure. */
  function ParseEach(rows: seq<Row>, parse: string -> Option<real>): Result<(seq<string>, seq<real>), ReaderError> {
    if rows == [] then Ok(([], []))
    else
      match ParseQuantity(rows[0].quantity, parse)
      case Err(e) => Err(e)
      case Ok(q) =>
        match ParseEach(rows[1..], parse)
        case Err(e) => Err(e)
        case Ok(res) => Ok(([Symbol(rows[0])] + res.0, [q] + res.1))
  }

  /** One ticker and one quantity per row, in order, or the failure of the
      first row whose quantity does not parse. */
  lemma {:induction false} ParseEachMeaning(rows: seq<Row>, parse: string -> Option<real>)
    ensures var r := ParseEach(rows, parse);
      && (r.Ok? <==> forall i :: 0 <= i < |rows| ==> ParseQuantity(rows[i].quantity, parse).Ok?)
      && (r.Ok? ==> |r.value.0| == |r.value.1| == |rows| && forall i :: 0 <= i < |rows| ==>
            r.value.0[i] == Symbol(rows[i]) && r.value.1[i] == ParseQuantity(rows[i].quantity, parse).value)
      && (r.Err? ==> exists i ::
            && 0 <= i < |rows| && ParseQuantity(rows[i].quantity, parse) == Err(r.error)
            && forall j :: 0 <= j < i ==> ParseQuantity(rows[j].quantity, parse).Ok?)
  {
    if rows != [] {
      ParseEachMeaning(rows[1..], parse);
      var rest := ParseEach(rows[1..], parse);
      assert forall i :: 1 <= i < |rows| ==> rows[i] == rows[1..][i - 1];
      var head := ParseQuantity(rows[0].quantity, parse);
      if head.Ok? && rest.Err? {
        var i :| 0 <= i < |rows[1..]| && ParseQuantity(rows[1..][i].quantity, parse) == Err(rest.error)
          && forall j :: 0 <= j < i ==> ParseQuantity(rows[1..][j].quantity, parse).Ok?;
        assert rows[i + 1] == rows[1..][i];
      }
    }
  }

  /** The scan is the quantity parse of the kept rows. */
  lemma {:induction false} ScanMeaning(rows: seq<Row>, parse: string -> Option<real>)
    ensures Scan(rows, parse) == ParseEach(KeptRows(rows), parse)
  {
    if rows != [] && Symbol(rows[0]) != "" {
      ScanMeaning(rows[1..], parse);
      var rest := KeptRows(rows[1..]);
      if IsSweep(Symbol(rows[0])) {
        assert KeptRows(rows) == rest;
        assert Scan(rows, parse) == Scan(rows[1..], parse);
      } else {
        var kept := [rows[0]] + rest;
        assert KeptRows(rows) == kept;
        assert kept != [] && kept[0] == rows[0] && kept[1..] == rest;
        ParseEachStep(kept, parse);
      }
    }
  }

  lemma ParseEachStep(rows: seq<Row>, parse: string -> Option<real>)
    requires rows != []
    ensures ParseEach(rows, parse) ==
      match ParseQuantity(rows[0].quantity, parse)
      case Err(e) => Err(e)
      case Ok(q) =>
        match ParseEach(rows[1..], parse)
        case Err(e) => Err(e)
        case Ok(res) => Ok(([Symbol(rows[0])] + res.0, [q] + res.1))
  {
  }

  /** `read_positions(csv_path)` after the file is opened: the header check,
      the scan, and the check that something was read. */
  function ReadSpec(headers: seq<string>, rows: seq<Row>, parse: string -> Option<real>): (r: Result<(seq<string>, seq<real>), ReaderError>)
    ensures r.Ok? ==> r.value.0 != [] && |r.value.0| == |r.value.1|
    ensures headers == [] ==> r == Err(NoHeaders)
  {
    if headers == [] then Err(NoHeaders)
    else match Scan(rows, parse)
      case Err(e) => Err(e)
      case Ok(res) => if res.0 == [] then Err(NoTickers) else Ok(res)
  }

  /** Combining what the loop has appended with what the rest of the rows give. */
  function Prepend(tickers: seq<string>, quantities: seq<real>, rest: Result<(seq<string>, seq<real>), ReaderError>): Result<(seq<string>, seq<real>), ReaderError> {
    match rest
    case Err(e) => Err(e)
    case Ok(res) => Ok((tickers + res.0, quantities + res.1))
  }

  /** The scan stops at a row without a symbol. */
  lemma ScanBlank(rows: seq<Row>, i: nat, parse: string -> Option<real>)
    requires i <= |rows| && (i == |rows| || Symbol(rows[i]) == "")
    ensures Scan(rows[i..], parse) == Ok(([], []))
  {
    if i < |rows| {
      assert rows[i..][0] == rows[i];
    }
  }

  /** The scan passes over the sweep position. */
  lemma ScanSweep(rows: seq<Row>, i: nat, parse: string -> Option<real>)
    requires i < |rows| && Symbol(rows[i]) != "" && IsSweep(Symbol(rows[i]))
    ensures Scan(rows[i..], parse) == Scan(rows[i + 1..], parse)
  {
    assert rows[i..][0] == rows[i] && rows[i..][1..] == rows[i + 1..];
  }

  /** Any other row is parsed, and the rest scanned after it. */
  lemma ScanTicker(rows: seq<Row>, i: nat, parse: string -> Option<real>, tickers: seq<string>, quantities: seq<real>)
    requires i < |rows| && Symbol(rows[i]) != "" && !IsSweep(Symbol(rows[i]))
    ensures ParseQuantity(rows[i].quantity, parse).Err? ==>
      Prepend(tickers, quantities, Scan(rows[i..], parse)) == Err(ParseQuantity(rows[i].quantity, parse).error)
    ensures ParseQuantity(rows[i].quantity, parse).Ok? ==>
      Prepend(tickers, quantities, Scan(rows[i..], parse)) ==
      Prepend(tickers + [Symbol(rows[i])], quantities + [ParseQuantity(rows[i].quantity, parse).value], Scan(rows[i + 1..], parse))
  {
    assert rows[i..][0] == rows[i] && rows[i..][1..] == rows[i + 1..];
    match Scan(rows[i + 1..], parse)
    case Err(e) =>
    case Ok(res) =>
      assert tickers + ([Symbol(rows[i])] + res.0) == tickers + [Symbol(rows[i])] + res.0;
      if ParseQuantity(rows[i].quantity, parse).Ok? {
        var q := ParseQuantity(rows[i].quantity, parse).value;
        assert quantities + ([q] + res.1) == quantities + [q] + res.1;
      }
  }

  /** The loop of `read_positions`, appending to `tickers` and `quantities`. */
  method ReadPositions(headers: seq<string>, rows: seq<Row>, parse: string -> Option<real>) returns (r: Result<(seq<string>, seq<real>), ReaderError>)
    ensures r == ReadSpec(headers, rows, parse)
  {
    if headers == [] {
      return Err(NoHeaders);
    }
    var tickers: seq<string> := [];
    var quantities: seq<real> := [];
    var i := 0;
    assert rows[0..] == rows;
    assert Prepend([], [], Scan(rows, parse)) == Scan(rows, parse) by {
      match Scan(rows, parse)
      case Err(e) =>
      case Ok(res) => assert [] + res.0 == res.0 && [] + res.1 == res.1;
    }
    while i < |rows| && Symbol(rows[i]) != ""
      invariant 0 <= i <= |rows|
      invariant Prepend(tickers, quantities, Scan(rows[i..], parse)) == Scan(rows, parse)
    {
      var symbol := Symbol(rows[i]);
      if IsSweep(symbol) {
        ScanSweep(rows, i, parse);
        i := i + 1;
        continue;
      }
      ScanTicker(rows, i, parse, tickers, quantities);
      var quantity := ParseQuantity(rows[i].quantity, parse);
      if quantity.Err? {
        return Err(quantity.error);
      }
      tickers := tickers + [symbol];
      quantities := quantities + [quantity.value];
      i := i + 1;
    }
    ScanBlank(rows, i, parse);
    assert tickers + [] == tickers && quantities + [] == quantities;
    if tickers == [] {
      return Err(NoTickers);
    }
    return Ok((tickers, quantities));
  }

  // ---------------------------------------------------------------------------
  // Cash settings
  // ---------------------------------------------------------------------------

  /** `get_cash_config(config)`: no cash settings, or both lists. */
  function CashConfig(config: seq<(string, Value)>): (r: Result<Option<(seq<Value>, seq<Value>)>, ReaderError>)
    ensures var amounts := if Get(config, "cash_amounts").Null? then Get(config, "chash_amounts") else Get(config, "cash_amounts");
      var currency := Get(config, "cash_currency");
      && (r == Ok(None) <==> amounts.Null? && currency.Null?)
      && (r == Err(CashIncomplete) <==> amounts.Null? != currency.Null?)
      && (r == Err(CashNotLists) <==> !amounts.Null? && !currency.Null? && !(amounts.List? && currency.List?))
      && (r.Ok? && r.value.Some? <==> amounts.List? && currency.List?)
      && (r.Ok? && r.value.Some? ==> r.value.value == (amounts.items, currency.items))
  {
    var amounts := Get(config, "cash_amounts");
    var amounts := if amounts.Null? then Get(config, "chash_amounts") else amounts;
    var currency := Get(config, "cash_currency");
    if amounts.Null? && currency.Null? then Ok(None)
    else if amounts.Null? || currency.Null? then Err(CashIncomplete)
    else if !amounts.List? || !currency.List? then Err(CashNotLists)
    else Ok(Some((amounts.items, currency.items)))
  }

  /** The misspelt key `chash_amounts` is read only when `cash_amounts` is
      absent or null. */
  lemma CashAmountsFirst(config: seq<(string, Value)>, other: Value)
    requires !Get(config, "cash_amounts").Null?
    ensures CashConfig(config) == CashConfig(Put(config, "chash_amounts", other))
  {
    PutLookup(config, "chash_amounts", other, "cash_amounts");
    PutLookup(config, "chash_amounts", other, "cash_currency");
  }
}
