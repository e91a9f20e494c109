/** The memory-map interface (`LLMemMapIf`): a table of named registers,
    loaded once from comma-separated rows, and reads and writes of a
    register by name. A register is a bit field when its `bits` column is
    non-empty, else an array when its `total_size` column is non-empty,
    else a scalar. */
module MemMapIf {
  import opened Py
  import opened Arith
  import opened Transport
  import opened LLShell

  /** One row of the table: column name to cell text. */
  type Row = map<string, string>

  /** The register table: names in the order the rows first named them,
      and each name's row. */
  datatype MemMap = MemMap(names: seq<string>, regs: map<string, Row>)

  ghost predicate Valid(mm: MemMap) {
    Distinct(mm.names) && (forall k :: k in mm.regs <==> k in mm.names)
  }

  // ---------------------------------------------------------------------
  // Loading

  /** `dict(zip(header, row))`: pairs up to the shorter of the two; a
      repeated column name keeps its last cell. */
  function ZipRow(header: seq<string>, row: seq<string>): map<string, string>
    decreases |header|
  {
    var n := if |header| < |row| then |header| else |row|;
    if n == 0 then map[] else ZipRow(header[..n - 1], row[..n - 1])[header[n - 1] := row[n - 1]]
  }

  /** A row names exactly the header columns it reaches, each with the cell
      under its last occurrence. */
  lemma ZipRowSpec(header: seq<string>, row: seq<string>)
    ensures var n := if |header| < |row| then |header| else |row|;
      && (forall k :: k in ZipRow(header, row) <==> k in header[..n])
      && (forall i :: 0 <= i < n && header[i] !in header[i + 1..n] ==> ZipRow(header, row)[header[i]] == row[i])
  {
    ZipRowKeys(header, row);
    var n := if |header| < |row| then |header| else |row|;
    forall i | 0 <= i < n && header[i] !in header[i + 1..n]
      ensures ZipRow(header, row)[header[i]] == row[i]
    {
      ZipRowAt(header, row, i);
    }
  }

  lemma {:induction false} ZipRowKeys(header: seq<string>, row: seq<string>)
    ensures var n := if |header| < |row| then |header| else |row|;
      forall k :: k in ZipRow(header, row) <==> k in header[..n]
    decreases |header|
  {
    var n := if |header| < |row| then |header| else |row|;
    if n > 0 {
      var h', r' := header[..n - 1], row[..n - 1];
      ZipRowKeys(h', r');
      assert (if |h'| < |r'| then |h'| else |r'|) == n - 1;
      assert h'[..n - 1] == header[..n - 1];
      assert header[..n] == header[..n - 1] + [header[n - 1]];
    }
  }

  lemma {:induction false} ZipRowAt(header: seq<string>, row: seq<string>, i: nat)
    requires i < |header| && i < |row|
    requires var n := if |header| < |row| then |header| else |row|;
      header[i] !in header[i + 1..n]
    ensures header[i] in ZipRow(header, row) && ZipRow(header, row)[header[i]] == row[i]
    decreases |header|
  {
    var n := if |header| < |row| then |header| else |row|;
    var h', r' := header[..n - 1], row[..n - 1];
    if i < n - 1 {
      assert header[i + 1..n] == header[i + 1..n - 1] + [header[n - 1]];
      assert h'[i + 1..n - 1] == header[i + 1..n - 1];
      ZipRowAt(h', r', i);
    }
  }

  /** `header.index(x)`: the first position of `x`. */
  function IndexOf(header: seq<string>, x: string): (i: nat)
    requires x in header
    ensures i < |header| && header[i] == x && x !in header[..i]
  {
    if header[0] == x then 0
    else
      var k := IndexOf(header[1..], x);
      assert header[..k + 1] == [header[0]] + header[1..][..k];
      k + 1
  }

  /** The `name` cells of data rows `1 .. n`. */
  function NameColumn(rows: seq<seq<string>>, idx: nat, n: nat): (r: seq<string>)
    requires n < |rows|
    requires forall j :: 1 <= j <= n ==> idx < |rows[j]|
    ensures |r| == n && forall j :: 0 <= j < n ==> r[j] == rows[j + 1][idx]
  {
    seq(n, j requires 0 <= j < n => rows[j + 1][idx])
  }

  /** The table after data rows `1 .. n`: a new name is appended to the
      order, and every row replaces the one stored under its name. */
  function Loaded(rows: seq<seq<string>>, idx: nat, n: nat): (seq<string>, map<string, Row>)
    requires n < |rows|
    requires forall j :: 1 <= j <= n ==> idx < |rows[j]|
  {
    if n == 0 then ([], map[])
    else
      var (names, regs) := Loaded(rows, idx, n - 1);
      var key := rows[n][idx];
      (if key in regs then names else names + [key], regs[key := ZipRow(rows[0], rows[n])])
  }

  /** What `import_mm_from_csv` returns for the rows of a file. */
  function Imported(rows: seq<seq<string>>): Outcome<MemMap> {
    if |rows| <= 1 then Ok(MemMap([], map[]))
    else if "name" !in rows[0] then Raised(ValueError)
    else
      var idx := IndexOf(rows[0], "name");
      if exists j :: 1 <= j < |rows| && |rows[j]| <= idx then Raised(IndexError)
      else
        var (names, regs) := Loaded(rows, idx, |rows| - 1);
        Ok(MemMap(names, regs))
  }

  /** `import_mm_from_csv` after the file is read into rows. */
  method ImportMemMap(rows: seq<seq<string>>) returns (r: Outcome<MemMap>)
    ensures r == Imported(rows)
  {
    if |rows| <= 1 {
      return Ok(MemMap([], map[]));
    }
    // `rows[0].index('name')` is evaluated for every data row and raises on the first
    if "name" !in rows[0] {
      return Raised(ValueError);
    }
    var idx := IndexOf(rows[0], "name");
    var names: seq<string> := [];
    var cmdList: map<string, Row> := map[];
    for row := 1 to |rows|
      invariant forall j :: 1 <= j < row ==> idx < |rows[j]|
      invariant (names, cmdList) == Loaded(rows, idx, row - 1)
    {
      var cmd := ZipRow(rows[0], rows[row]);
      if |rows[row]| <= idx {
        return Raised(IndexError);
      }
      var key := rows[row][idx];
      if key !in cmdList {
        names := names + [key];
      }
      cmdList := cmdList[key := cmd];
    }
    r := Ok(MemMap(names, cmdList));
  }

  /** The loaded table lists each name once, in the order the rows first
      name it, and has exactly those names as keys. */
  lemma {:induction false} LoadedNames(rows: seq<seq<string>>, idx: nat, n: nat)
    requires n < |rows|
    requires forall j :: 1 <= j <= n ==> idx < |rows[j]|
    ensures Loaded(rows, idx, n).0 == Dedup(NameColumn(rows, idx, n))
    ensures forall k :: k in Loaded(rows, idx, n).1 <==> k in Loaded(rows, idx, n).0
  {
    if n > 0 {
      LoadedNames(rows, idx, n - 1);
      var prev := Loaded(rows, idx, n - 1);
      var key := rows[n][idx];
      var nc := NameColumn(rows, idx, n);
      assert nc[..n - 1] == NameColumn(rows, idx, n - 1);
      assert nc[n - 1] == key;
      var d := Dedup(nc[..n - 1]);
      assert d == prev.0;
      assert Dedup(nc) == if key in d then d else d + [key];
      assert Loaded(rows, idx, n) == (if key in prev.1 then prev.0 else prev.0 + [key], prev.1[key := ZipRow(rows[0], rows[n])]);
    }
  }

  /** Each name holds the last row that carries it. */
  lemma {:induction false} LoadedLast(rows: seq<seq<string>>, idx: nat, n: nat)
    requires n < |rows|
    requires forall j :: 1 <= j <= n ==> idx < |rows[j]|
    ensures forall j :: 1 <= j <= n && (forall j' :: j < j' <= n ==> rows[j'][idx] != rows[j][idx]) ==>
      rows[j][idx] in Loaded(rows, idx, n).1 && Loaded(rows, idx, n).1[rows[j][idx]] == ZipRow(rows[0], rows[j])
  {
    if n > 0 {
      LoadedLast(rows, idx, n - 1);
      var regs := Loaded(rows, idx, n).1;
      assert regs == Loaded(rows, idx, n - 1).1[rows[n][idx] := ZipRow(rows[0], rows[n])];
      forall j | 1 <= j <= n && (forall j' :: j < j' <= n ==> rows[j'][idx] != rows[j][idx])
        ensures rows[j][idx] in regs && regs[rows[j][idx]] == ZipRow(rows[0], rows[j])
      {
        if j < n {
          assert rows[n][idx] != rows[j][idx];
        }
      }
    }
  }

  /** `import_mm_from_csv`: no data rows give an empty table; a header
      without a `name` column raises `ValueError`; a data row too short to
      reach it raises `IndexError`; otherwise every name is a key, listed
      once in first-seen order, holding the last row with that name. */
  lemma ImportedTable(rows: seq<seq<string>>)
    ensures |rows| <= 1 ==> Imported(rows) == Ok(MemMap([], map[]))
    ensures |rows| > 1 && "name" !in rows[0] ==> Imported(rows) == Raised(ValueError)
    ensures |rows| > 1 && "name" in rows[0] ==>
      var idx := IndexOf(rows[0], "name");
      && (Imported(rows) == Raised(IndexError) <==> exists j :: 1 <= j < |rows| && |rows[j]| <= idx)
      && (Imported(rows).Ok? ==>
            var mm := Imported(rows).value;
            && (forall j :: 1 <= j < |rows| ==> idx < |rows[j]|)
            && Valid(mm)
            && mm.names == Dedup(NameColumn(rows, idx, |rows| - 1))
            && (forall j :: 1 <= j < |rows| && (forall j' :: j < j' < |rows| ==> rows[j'][idx] != rows[j][idx])
                  ==> rows[j][idx] in mm.regs && mm.regs[rows[j][idx]] == ZipRow(rows[0], rows[j])))
  {
    if |rows| > 1 && "name" in rows[0] {
      var idx := IndexOf(rows[0], "name");
      if forall j :: 1 <= j < |rows| ==> idx < |rows[j]| {
        LoadedNames(rows, idx, |rows| - 1);
        LoadedLast(rows, idx, |rows| - 1);
      }
    }
  }

  // ---------------------------------------------------------------------
  // Register descriptors

  /** `cmd[key]`: a missing column raises `KeyError`. */
  function Col(row: Row, key: string): (r: Outcome<string>)
    ensures r.Ok? <==> key in row
    ensures r.Ok? ==> r.value == row[key]
  {
    if key in row then Ok(row[key]) else Raised(KeyError)
  }

  /** `int(text)`. */
  function Int10(text: string): (r: Outcome<int>)
    ensures r.Ok? <==> ParseInt10(text).Some?
    ensures r.Ok? ==> r.value == ParseInt10(text).value
  {
    match ParseInt10(text)
    case Some(n) => Ok(n)
    case None => Raised(ValueError)
  }

  /** A size as `read_reg` holds it: a cell's text or a computed `int`. */
  datatype SizeArg = Text(s: string) | Num(n: int)

  function SizeText(a: SizeArg): string {
    match a
    case Text(s) => s
    case Num(n) => IntToString(n)
  }

  /** How many bytes `read_reg` asks for: without a count, `total_size` if
      it is filled in, else `type_size`; with a count, `count` elements of
      `type_size` bytes for an array and `count` itself otherwise. */
  function ReadSize(row: Row, count: Option<int>): (r: Outcome<SizeArg>)
    ensures r.Ok? <==>
      && "total_size" in row
      && (count.None? && row["total_size"] == "" ==> "type_size" in row)
      && (count.Some? && row["total_size"] != "" ==> "type_size" in row && ParseInt10(row["type_size"]).Some?)
    ensures r.Raised? ==> r.exc == if "total_size" in row && "type_size" in row then ValueError else KeyError
    ensures r.Ok? && count.None? ==>
      (row["total_size"] == "" ==> "type_size" in row)
      && r.value == Text(if row["total_size"] == "" then row["type_size"] else row["total_size"])
    ensures r.Ok? && count.Some? && row["total_size"] == "" ==> r.value == Num(count.value)
    ensures r.Ok? && count.Some? && row["total_size"] != "" ==>
      "type_size" in row && ParseInt10(row["type_size"]).Some?
      && r.value == Num(ParseInt10(row["type_size"]).value * count.value)
  {
    var total :- Col(row, "total_size");
    match count
    case None =>
      if total == "" then
        var ts :- Col(row, "type_size");
        Ok(Text(ts))
      else Ok(Text(total))
    case Some(c) =>
      if total != "" then
        var ts :- Col(row, "type_size");
        var n :- Int10(ts);
        Ok(Num(n * c))
      else Ok(Num(c))
  }

  /** `int(cmd['offset']) + offset * int(cmd['type_size'])`: where element
      `elemOffset` of an array starts. */
  function ElementAddress(row: Row, elemOffset: int): (r: Outcome<(int, int)>)
    ensures r.Ok? <==> "offset" in row && ParseInt10(row["offset"]).Some?
                       && "type_size" in row && ParseInt10(row["type_size"]).Some?
    ensures r.Ok? ==> var ts := ParseInt10(row["type_size"]).value;
      r.value == (ParseInt10(row["offset"]).value + elemOffset * ts, ts)
  {
    var o :- Col(row, "offset");
    var base :- Int10(o);
    var t :- Col(row, "type_size");
    var ts :- Int10(t);
    Ok((base + elemOffset * ts, ts))
  }

  /** The bit-field descriptor: `cmd['offset']`, `cmd['bit_offset']` and
      `cmd['bits']` as `read_bits` / `write_bits` convert them with `int()`. */
  function BitField(row: Row): (r: Outcome<(int, int, int)>)
    ensures r.Ok? <==> "offset" in row && "bit_offset" in row && "bits" in row
                       && ParseInt10(row["offset"]).Some? && ParseInt10(row["bit_offset"]).Some?
                       && ParseInt10(row["bits"]).Some?
    ensures r.Ok? ==> r.value == (ParseInt10(row["offset"]).value, ParseInt10(row["bit_offset"]).value,
                                  ParseInt10(row["bits"]).value)
  {
    var o :- Col(row, "offset");
    var bo :- Col(row, "bit_offset");
    var b :- Col(row, "bits");
    var width :- Int10(b);
    var offset :- Int10(bo);
    var index :- Int10(o);
    Ok((index, offset, width))
  }

  /** What `read_reg` decides to do for a register, before anything is sent. */
  datatype ReadPlan =
    | BitsRead(index: int, offset: int, width: int)
    | ArrayRead(address: int, size: SizeArg, typeSize: int)
    | ScalarRead(cell: string, size: SizeArg)

  /** The dispatch of `read_reg`: a bit field first, then an array, then a
      scalar. A bit field ignores the element offset and count. */
  function PlanRead(row: Row, elemOffset: int, count: Option<int>): (r: Outcome<ReadPlan>)
    ensures r.Ok? <==>
      && ReadSize(row, count).Ok? && "bits" in row
      && (row["bits"] != "" ==> BitField(row).Ok?)
      && (row["bits"] == "" && row["total_size"] != "" ==> ElementAddress(row, elemOffset).Ok?)
      && (row["bits"] == "" && row["total_size"] == "" ==> "offset" in row)
    ensures r.Raised? ==> r.exc == KeyError || r.exc == ValueError
    ensures r.Ok? && row["bits"] != "" ==> r.value.BitsRead? && BitField(row) == Ok((r.value.index, r.value.offset, r.value.width))
    ensures r.Ok? && row["bits"] == "" && row["total_size"] != "" ==>
      && r.value.ArrayRead? && r.value.size == ReadSize(row, count).value
      && ElementAddress(row, elemOffset) == Ok((r.value.address, r.value.typeSize))
    ensures r.Ok? && row["bits"] == "" && row["total_size"] == "" ==>
      "offset" in row && r.value == ScalarRead(row["offset"], ReadSize(row, count).value)
  {
    var size :- ReadSize(row, count);
    var bits :- Col(row, "bits");
    if bits != "" then
      var field :- BitField(row);
      Ok(BitsRead(field.0, field.1, field.2))
    else
      // `ReadSize` has already looked up `total_size`
      if row["total_size"] != "" then
        var at :- ElementAddress(row, elemOffset);
        Ok(ArrayRead(at.0, size, at.1))
      else
        var o :- Col(row, "offset");
        Ok(ScalarRead(o, size))
  }

  /** `'cmd={name} response={msg}'`. */
  function WithRegisterName(name: string, r: (Outcome<CmdInfo>, Link)): (r': (Outcome<CmdInfo>, Link))
    ensures r'.1 == r.1 && r'.0.Ok? == r.0.Ok?
    ensures r.0.Raised? ==> r'.0 == r.0
    ensures r.0.Ok? ==> r'.0.value == r.0.value.(msg := "cmd=" + name + " response=" + r.0.value.msg)
  {
    match r.0
    case Ok(info) => (Ok(info.(msg := "cmd=" + name + " response=" + info.msg)), r.1)
    case Raised(e) => (Raised(e), r.1)
  }

  // ---------------------------------------------------------------------
  // Arrays

  predicate AllBytes(xs: seq<int>) {
    forall i :: 0 <= i < |xs| ==> 0 <= xs[i] < 256
  }

  /** The whole `n`-byte elements of `xs`, each read little-endian; a
      trailing partial element is dropped. */
  function Decode(xs: seq<int>, n: nat): seq<int>
    requires n > 0
    decreases |xs|
  {
    if |xs| < n then [] else [LittleEndian(xs[..n])] + Decode(xs[n..], n)
  }

  /** Every whole `n`-byte element of `xs` consists of bytes. */
  predicate WholeBytes(xs: seq<int>, n: nat)
    requires n > 0
    decreases |xs|
  {
    |xs| < n || (AllBytes(xs[..n]) && WholeBytes(xs[n..], n))
  }

  function Len(data: Data): nat
    requires data.Ints? || data.Strs? || data.Str?
  {
    match data
    case Ints(xs) => |xs|
    case Strs(ss) => |ss|
    case Str(s) => |s|
  }

  /** `_parse_array(data, type_size)`: `int(len(data) / type_size)`
      elements of `type_size` bytes each, little-endian; a `TypeError` or
      `ValueError` (no `len`, a size that is not a number, an element that
      is not made of bytes) hands back `data` as it is, and a zero size
      raises `ZeroDivisionError`. */
  function ParseArray(data: Data, size: SizeArg): (r: Outcome<Data>)
    ensures r.Raised? <==> size == Num(0) && (data.Ints? || data.Strs? || data.Str?)
    ensures r.Raised? ==> r.exc == ZeroDivisionError
    ensures r.Ok? ==> r.value == data || r.value.Ints?
    ensures size.Text? ==> r == Ok(data)
  {
    if data.NoData? || data.Int? then Ok(data)
    else
      match size
      case Text(_) => Ok(data)
      case Num(n) =>
        if n == 0 then Raised(ZeroDivisionError)
        else if n < 0 || Len(data) / n == 0 then Ok(Ints([]))
        else if data.Ints? && WholeBytes(data.xs, n) then Ok(Ints(Decode(data.xs, n)))
        else Ok(data)
  }

  /** `a // n` for a non-negative `a`, one element at a time. */
  lemma Unchunk(a: int, n: int)
    requires n > 0 && a >= 0
    ensures a / n == 0 <==> a < n
    ensures a >= n ==> (a - n) / n == a / n - 1
  {
    if a < n {
      DivModUnique(a, n, 0, a);
    } else {
      DivModUnique(a, n, (a - n) / n + 1, (a - n) % n);
    }
  }

  /** There are `len // n` decoded elements. */
  lemma {:induction false} DecodeLength(xs: seq<int>, n: nat)
    requires n > 0
    ensures |Decode(xs, n)| == |xs| / n
    decreases |xs|
  {
    Unchunk(|xs|, n);
    if |xs| >= n {
      DecodeLength(xs[n..], n);
    }
  }

  /** Element `i` is read from bytes `[i*n, (i+1)*n)`, as `_parse_array`
      slices them. */
  lemma {:induction false} DecodeAt(xs: seq<int>, n: nat, i: nat)
    requires n > 0 && i < |Decode(xs, n)|
    ensures (i + 1) * n <= |xs| && Decode(xs, n)[i] == LittleEndian(xs[i * n..(i + 1) * n])
    decreases i
  {
    DecodeStep(xs, n);
    if i > 0 {
      DecodeAt(xs[n..], n, i - 1);
      var lo, hi := (i - 1) * n, i * n;
      ElementShift(n, i);
      assert xs[n..][lo..hi] == xs[n + lo..n + hi];
    }
  }

  /** Element `i` of the tail starts one element size after the head. */
  lemma ElementShift(n: nat, i: nat)
    requires i > 0
    ensures n + (i - 1) * n == i * n && n + i * n == (i + 1) * n
  {
  }

  /** Taking one whole element off the front. */
  lemma DecodeStep(ys: seq<int>, n: nat)
    requires n > 0 && |ys| >= n
    ensures Decode(ys, n) == [LittleEndian(ys[..n])] + Decode(ys[n..], n)
    ensures WholeBytes(ys, n) <==> AllBytes(ys[..n]) && WholeBytes(ys[n..], n)
  {
  }

  /** Taking the element at `pos` off the rest of the list. */
  lemma DecodeAfter(xs: seq<int>, pos: nat, n: nat)
    requires n > 0 && pos + n <= |xs|
    ensures Decode(xs[pos..], n) == [LittleEndian(xs[pos..pos + n])] + Decode(xs[pos + n..], n)
    ensures WholeBytes(xs[pos..], n) <==> AllBytes(xs[pos..pos + n]) && WholeBytes(xs[pos + n..], n)
  {
    DecodeStep(xs[pos..], n);
    assert xs[pos..][..n] == xs[pos..pos + n] && xs[pos..][n..] == xs[pos + n..];
  }

  /** `_parse_array` on a byte list with a positive element size. */
  lemma ParseArrayInts(xs: seq<int>, n: nat)
    requires n > 0
    ensures ParseArray(Ints(xs), Num(n))
         == if |xs| / n == 0 then Ok(Ints([]))
            else if WholeBytes(xs, n) then Ok(Ints(Decode(xs, n)))
            else Ok(Ints(xs))
  {
  }

  /** The loop of `_parse_array`, on the byte list a read returns; `pos`
      is `i * type_size`. */
  method ParseArrayLoop(xs: seq<int>, n: int) returns (r: Outcome<Data>)
    ensures r == ParseArray(Ints(xs), Num(n))
  {
    if n == 0 {
      return Raised(ZeroDivisionError);
    }
    if n < 0 {
      return Ok(Ints([]));
    }
    var elements := |xs| / n;
    var parsed: seq<int> := [];
    var pos := 0;
    for i := 0 to elements
      invariant pos <= |xs| && (|xs| - pos) / n == elements - i
      invariant WholeBytes(xs, n) <==> WholeBytes(xs[pos..], n)
      invariant Decode(xs, n) == parsed + Decode(xs[pos..], n)
    {
      Unchunk(|xs| - pos, n);
      var chunk := xs[pos..pos + n];
      DecodeAfter(xs, pos, n);
      if !AllBytes(chunk) {
        ParseArrayInts(xs, n);
        return Ok(Ints(xs));
      }
      assert parsed + ([LittleEndian(chunk)] + Decode(xs[pos + n..], n))
          == (parsed + [LittleEndian(chunk)]) + Decode(xs[pos + n..], n);
      parsed := parsed + [LittleEndian(chunk)];
      pos := pos + n;
    }
    Unchunk(|xs| - pos, n);
    assert xs[pos..] == [] || |xs[pos..]| < n;
    assert Decode(xs[pos..], n) == [] && WholeBytes(xs[pos..], n);
    assert parsed == Decode(xs, n);
    ParseArrayInts(xs, n);
    r := Ok(Ints(parsed));
  }

  /** `n` bytes per value, little-endian, as `write_bytes` puts an integer on the wire. */
  function Encode(values: seq<int>, n: nat): seq<int> {
    if values == [] then [] else WireBytes(values[0], n) + Encode(values[1..], n)
  }

  /** Values written as consecutive `n`-byte little-endian elements are
      read back by `_parse_array` as the values modulo `256**n`, whatever
      partial element trails them. */
  lemma {:induction false} ArrayRoundTrip(values: seq<int>, n: nat, tail: seq<int>)
    requires n > 0 && |tail| < n
    ensures var xs := Encode(values, n) + tail;
      && WholeBytes(xs, n)
      && Decode(xs, n) == seq(|values|, i requires 0 <= i < |values| => values[i] % Pow2(8 * n))
    decreases |values|
  {
    var xs := Encode(values, n) + tail;
    if values != [] {
      ArrayRoundTrip(values[1..], n, tail);
      var w := WireBytes(values[0], n);
      assert xs == w + (Encode(values[1..], n) + tail);
      assert xs[..n] == w && xs[n..] == Encode(values[1..], n) + tail;
      WireBytesLittleEndian(values[0], n);
    }
  }

  /** The round trip through `_parse_array` itself. */
  lemma ParseArrayRoundTrip(values: seq<int>, n: nat, tail: seq<int>)
    requires n > 0 && |tail| < n
    ensures ParseArray(Ints(Encode(values, n) + tail), Num(n))
         == Ok(Ints(seq(|values|, i requires 0 <= i < |values| => values[i] % Pow2(8 * n))))
  {
    var xs := Encode(values, n) + tail;
    ArrayRoundTrip(values, n, tail);
    DecodeLength(xs, n);
  }

  /** As written, `read_reg` hands `_parse_array` the `type_size` cell, a
      string: `len(data) / '2'` raises `TypeError`, so the bytes come back
      undecoded, where the integer size decodes them. */
  lemma ParseArrayTextSize()
    ensures ParseArray(Ints([1, 0, 2, 0]), Text("2")) == Ok(Ints([1, 0, 2, 0]))
    ensures ParseArray(Ints([1, 0, 2, 0]), Num(2)) == Ok(Ints([1, 2]))
  {
    var xs := [1, 0, 2, 0];
    assert xs[..2] == [1, 0] && xs[2..] == [2, 0];
    assert xs[2..][..2] == [2, 0] && xs[2..][2..] == [];
    assert LittleEndian([1, 0]) == 1 && LittleEndian([2, 0]) == 2;
    assert Decode(xs[2..], 2) == [2] && WholeBytes(xs[2..], 2);
    assert Decode(xs, 2) == [1, 2] && WholeBytes(xs, 2);
  }

  // ---------------------------------------------------------------------
  // Reading a register

  /** `read_reg` as written: the array and scalar branches call
      `read_bytes` with three positional arguments where it takes two, so
      they raise `TypeError` before anything is sent. */
  function ReadRegAsWritten(mm: MemMap, name: string, elemOffset: int, count: Option<int>,
                            link: Link, errnos: ErrnoTable): (r: (Outcome<CmdInfo>, Link))
    ensures name !in mm.regs ==> r == (Raised(KeyError), link)
  {
    if name !in mm.regs then (Raised(KeyError), link)
    else
      match PlanRead(mm.regs[name], elemOffset, count)
      case Raised(e) => (Raised(e), link)
      case Ok(BitsRead(index, offset, width)) =>
        WithRegisterName(name, ReadBits(link, index, offset, width, errnos))
      case Ok(_) => (Raised(TypeError), link)
  }

  /** As written, only bit-field registers can be read: every other
      register raises `TypeError`, and nothing is sent. */
  lemma ReadRegAsWrittenRaises(mm: MemMap, name: string, elemOffset: int, count: Option<int>,
                               link: Link, errnos: ErrnoTable)
    requires name in mm.regs && PlanRead(mm.regs[name], elemOffset, count).Ok?
    requires mm.regs[name]["bits"] == ""
    ensures ReadRegAsWritten(mm, name, elemOffset, count, link, errnos) == (Raised(TypeError), link)
  {
  }

  /** The exchange a read plan leads to: `read_bits`, or `read_bytes` of the
      address and size, an array's payload decoded by `_parse_array`. */
  function ReadPlanned(plan: ReadPlan, link: Link, errnos: ErrnoTable): (r: (Outcome<CmdInfo>, Link))
    ensures plan.BitsRead? ==> r == ReadBits(link, plan.index, plan.offset, plan.width, errnos)
    ensures plan.ScalarRead? ==> r == ReadBytes(link, plan.cell, SizeText(plan.size), errnos)
    ensures plan.ArrayRead? ==>
      var read := ReadBytes(link, IntToString(plan.address), SizeText(plan.size), errnos);
      && r.1 == read.1
      && (read.0.Raised? ==> r.0 == read.0)
      && (read.0.Ok? ==>
            var parsed := ParseArray(read.0.value.data, Num(plan.typeSize));
            && (parsed.Raised? ==> r.0 == Raised(parsed.exc))
            && (parsed.Ok? ==> r.0 == Ok(read.0.value.(data := parsed.value))))
  {
    match plan
    case BitsRead(index, offset, width) => ReadBits(link, index, offset, width, errnos)
    case ArrayRead(address, size, typeSize) =>
      var (read, link') := ReadBytes(link, IntToString(address), SizeText(size), errnos);
      (match read
       case Raised(e) => (Raised(e), link')
       case Ok(info) =>
         (match ParseArray(info.data, Num(typeSize))
          case Ok(data) => (Ok(info.(data := data)), link')
          case Raised(e) => (Raised(e), link')))
    case ScalarRead(cell, size) => ReadBytes(link, cell, SizeText(size), errnos)
  }

  /** `read_reg` with `read_bytes(address, size)`, as its branches evidently
      intend, and `_parse_array` given the element size as an `int`. */
  function ReadReg(mm: MemMap, name: string, elemOffset: int, count: Option<int>,
                   link: Link, errnos: ErrnoTable): (r: (Outcome<CmdInfo>, Link))
    ensures name !in mm.regs ==> r == (Raised(KeyError), link)
    ensures name in mm.regs && PlanRead(mm.regs[name], elemOffset, count).Raised? ==> r.1 == link && r.0.Raised?
    ensures r.0.Ok? ==> StartsWith(r.0.value.msg, "cmd=" + name + " response=")
  {
    if name !in mm.regs then (Raised(KeyError), link)
    else
      match PlanRead(mm.regs[name], elemOffset, count)
      case Raised(e) => (Raised(e), link)
      case Ok(plan) => WithRegisterName(name, ReadPlanned(plan, link, errnos))
  }

  /** The one command a register read sends: `rr` with the register's
      address and size for a scalar or an array (the array address moved
      by whole elements), and the covering bytes of a bit field. */
  lemma ReadRegCommand(mm: MemMap, name: string, elemOffset: int, count: Option<int>,
                       link: Link, errnos: ErrnoTable)
    requires name in mm.regs && PlanRead(mm.regs[name], elemOffset, count).Ok?
    ensures var row := mm.regs[name];
      ReadReg(mm, name, elemOffset, count, link, errnos).1.sent == link.sent + [
        if row["bits"] != "" then
          var f := BitField(row).value;
          ReadCmd(IntToString(f.0), IntToString(Span(f.2, f.1)))
        else if row["total_size"] != "" then
          ReadCmd(IntToString(ElementAddress(row, elemOffset).value.0), SizeText(ReadSize(row, count).value))
        else ReadCmd(row["offset"], SizeText(ReadSize(row, count).value))]
  {
  }

  /** Reading three elements from element 2 of a one-byte array at address
      100 asks for `rr 102 3`. */
  lemma ReadArrayScenario(link: Link, errnos: ErrnoTable)
    ensures var row := map["name" := "user_reg.64", "offset" := "100", "type_size" := "1",
                           "total_size" := "8", "bits" := "", "bit_offset" := ""];
      var mm := MemMap(["user_reg.64"], map["user_reg.64" := row]);
      ReadReg(mm, "user_reg.64", 2, Some(3), link, errnos).1.sent == link.sent + ["rr 102 3"]
  {
    var row := map["name" := "user_reg.64", "offset" := "100", "type_size" := "1",
                   "total_size" := "8", "bits" := "", "bit_offset" := ""];
    ScenarioNumbers();
    assert ReadSize(row, Some(3)) == Ok(Num(3));
    assert ElementAddress(row, 2) == Ok((102, 1));
    assert PlanRead(row, 2, Some(3)) == Ok(ArrayRead(102, Num(3), 1));
    assert ReadCmd("102", "3") == "rr 102 3";
  }

  lemma ScenarioWriteCmd()
    ensures WriteCmd("102", WList([AInt(6), AInt(6), AInt(6)]), 4) == Ok("wr 102 6 6 6")
  {
    var items: seq<string> := ["6", "6", "6"];
    ScenarioItems();
    assert Reverse(items) == items;
    assert WriteTokens(WList([AInt(6), AInt(6), AInt(6)]), 4) == Ok(items);
    assert [WRITE_REG_CMD, "102"] + items == ["wr", "102", "6", "6", "6"];
    ScenarioJoin();
  }

  lemma ScenarioItems()
    ensures ListItems([AInt(6), AInt(6), AInt(6)]) == Ok(["6", "6", "6"])
  {
    ScenarioNumbers();
    var xs := [AInt(6), AInt(6), AInt(6)];
    assert !xs[0].AStr?;
    var r := seq(|xs|, i requires 0 <= i < |xs| => AtomText(xs[i]));
    assert r[0] == "6" && r[1] == "6" && r[2] == "6";
    assert r == ["6", "6", "6"];
  }

  lemma ScenarioJoin()
    ensures Join(["wr", "102", "6", "6", "6"], " ") == "wr 102 6 6 6"
  {
    var cmd: seq<string> := ["wr", "102", "6", "6", "6"];
    assert cmd[1..] == ["102", "6", "6", "6"];
    assert cmd[1..][1..] == ["6", "6", "6"];
    assert cmd[1..][1..][1..] == ["6", "6"];
    assert cmd[1..][1..][1..][1..] == ["6"];
    assert Join(["6"], " ") == "6";
    assert Join(["6", "6"], " ") == "6 6";
    assert Join(["6", "6", "6"], " ") == "6 6 6";
    assert Join(["102", "6", "6", "6"], " ") == "102 6 6 6";
  }

  lemma ScenarioNumbers()
    ensures ParseInt10("100") == Some(100) && ParseInt10("1") == Some(1)
    ensures IntToString(102) == "102" && IntToString(3) == "3"
    ensures IntToString(6) == "6"
  {
    assert "100"[..2] == "10" && "10"[..1] == "1";
    assert ValueIn("1", 10) == 1 && ValueIn("10", 10) == 10 && ValueIn("100", 10) == 100;
    assert NatToString(10) == "10";
    assert NatToString(102) == "102";
  }

  // ---------------------------------------------------------------------
  // Writing a register

  /** What `write_reg` decides to do for a register, before anything is sent. */
  datatype WritePlan =
    | BitsWrite(index: int, offset: int, width: int)
    | ArrayWrite(address: int)
    | ScalarWrite(cell: string, typeSize: int)

  /** The dispatch of `write_reg`: a bit field, else an array element
      written as four bytes, else a scalar of `type_size` bytes. */
  function PlanWrite(row: Row, elemOffset: int): (r: Outcome<WritePlan>)
    ensures r.Ok? <==>
      && "bits" in row
      && (row["bits"] != "" ==> BitField(row).Ok?)
      && (row["bits"] == "" ==> "total_size" in row)
      && (row["bits"] == "" && row["total_size"] != "" ==> ElementAddress(row, elemOffset).Ok?)
      && (row["bits"] == "" && row["total_size"] == "" ==>
            "offset" in row && "type_size" in row && ParseInt10(row["type_size"]).Some?)
    ensures r.Raised? ==> r.exc == KeyError || r.exc == ValueError
    ensures r.Ok? && row["bits"] != "" ==>
      r.value.BitsWrite? && BitField(row) == Ok((r.value.index, r.value.offset, r.value.width))
    ensures r.Ok? && row["bits"] == "" ==> "total_size" in row
    ensures r.Ok? && row["bits"] == "" && row["total_size"] != "" ==>
      r.value.ArrayWrite? && ElementAddress(row, elemOffset).Ok? && r.value.address == ElementAddress(row, elemOffset).value.0
    ensures r.Ok? && row["bits"] == "" && row["total_size"] == "" ==>
      "offset" in row && "type_size" in row && ParseInt10(row["type_size"]).Some?
      && r.value == ScalarWrite(row["offset"], ParseInt10(row["type_size"]).value)
  {
    var bits :- Col(row, "bits");
    if bits != "" then
      var field :- BitField(row);
      Ok(BitsWrite(field.0, field.1, field.2))
    else
      var total :- Col(row, "total_size");
      if total != "" then
        var at :- ElementAddress(row, elemOffset);
        Ok(ArrayWrite(at.0))
      else
        var o :- Col(row, "offset");
        var t :- Col(row, "type_size");
        var ts :- Int10(t);
        Ok(ScalarWrite(o, ts))
  }

  /** The exchange a write plan leads to. */
  function WritePlanned(plan: WritePlan, data: WriteData, link: Link, errnos: ErrnoTable): (r: (Outcome<CmdInfo>, Link))
    ensures plan.BitsWrite? ==> r == WriteBits(link, plan.index, plan.offset, plan.width, data, errnos)
    ensures plan.ArrayWrite? ==> r == WriteBytes(link, IntToString(plan.address), data, 4, errnos)
    ensures plan.ScalarWrite? ==> r == WriteBytes(link, plan.cell, data, plan.typeSize, errnos)
  {
    match plan
    case BitsWrite(index, offset, width) => WriteBits(link, index, offset, width, data, errnos)
    case ArrayWrite(address) => WriteBytes(link, IntToString(address), data, 4, errnos)
    case ScalarWrite(cell, typeSize) => WriteBytes(link, cell, data, typeSize, errnos)
  }

  /** `write_reg`. */
  function WriteReg(mm: MemMap, name: string, data: WriteData, elemOffset: int,
                    link: Link, errnos: ErrnoTable): (r: (Outcome<CmdInfo>, Link))
    ensures name !in mm.regs ==> r == (Raised(KeyError), link)
    ensures name in mm.regs && PlanWrite(mm.regs[name], elemOffset).Raised? ==> r.1 == link && r.0.Raised?
    ensures r.0.Ok? ==> StartsWith(r.0.value.msg, "cmd=" + name + " response=")
  {
    if name !in mm.regs then (Raised(KeyError), link)
    else
      match PlanWrite(mm.regs[name], elemOffset)
      case Raised(e) => (Raised(e), link)
      case Ok(plan) => WithRegisterName(name, WritePlanned(plan, data, link, errnos))
  }

  /** Writing three bytes from element 2 of a one-byte array at address 100
      sends `wr 102 6 6 6`. */
  lemma WriteArrayScenario(link: Link, errnos: ErrnoTable)
    ensures var row := map["name" := "user_reg.64", "offset" := "100", "type_size" := "1",
                           "total_size" := "8", "bits" := "", "bit_offset" := ""];
      var mm := MemMap(["user_reg.64"], map["user_reg.64" := row]);
      WriteReg(mm, "user_reg.64", WList([AInt(6), AInt(6), AInt(6)]), 2, link, errnos).1.sent
        == link.sent + ["wr 102 6 6 6"]
  {
    var row := map["name" := "user_reg.64", "offset" := "100", "type_size" := "1",
                   "total_size" := "8", "bits" := "", "bit_offset" := ""];
    ScenarioNumbers();
    assert ElementAddress(row, 2) == Ok((102, 1));
    assert PlanWrite(row, 2) == Ok(ArrayWrite(102));
    ScenarioWriteCmd();
    var data := WList([AInt(6), AInt(6), AInt(6)]);
    assert WritePlanned(ArrayWrite(102), data, link, errnos) == WriteBytes(link, "102", data, 4, errnos);
  }

  /** The commands a register write sends. A bit field is read first (the
      covering bytes of the field) and then, at most, written back. An array
      element is written as four bytes at the element's address, a scalar as
      `type_size` bytes at its `offset` cell, in one `wr` command; data that
      `write_bytes` rejects sends nothing. */
  lemma WriteRegCommand(mm: MemMap, name: string, data: WriteData, elemOffset: int,
                        link: Link, errnos: ErrnoTable)
    requires name in mm.regs && PlanWrite(mm.regs[name], elemOffset).Ok?
    ensures var row := mm.regs[name];
      var sent := WriteReg(mm, name, data, elemOffset, link, errnos).1.sent;
      && (row["bits"] != "" ==>
            var f := BitField(row).value;
            && |link.sent| < |sent| <= |link.sent| + 2
            && sent[..|link.sent| + 1] == link.sent + [ReadCmd(IntToString(f.0), IntToString(Span(f.2, f.1)))])
      && (row["bits"] == "" ==>
            var (cell, size) :=
              if row["total_size"] != "" then (IntToString(ElementAddress(row, elemOffset).value.0), 4)
              else (row["offset"], ParseInt10(row["type_size"]).value);
            sent == link.sent + (if WriteCmd(cell, data, size).Ok? then [WriteCmd(cell, data, size).value] else []))
  {
    var row := mm.regs[name];
    if row["bits"] != "" {
      var f := BitField(row).value;
      var (read, l1) := ReadBytes(link, IntToString(f.0), IntToString(Span(f.2, f.1)), errnos);
      assert l1.sent == link.sent + [ReadCmd(IntToString(f.0), IntToString(Span(f.2, f.1)))];
      var r := WriteBits(link, f.0, f.1, f.2, data, errnos);
      if r.1 != l1 {
        var written := Splice(read.value.data.n, f.1, if f.2 < 0 then 0 else f.2, data.n);
        var (write, l2) := WriteBytes(l1, IntToString(f.0), WInt(written), Span(f.2, f.1), errnos);
        assert r.1 == l2;
      }
    }
  }

  // ---------------------------------------------------------------------
  // Reading a structure

  /** The table keys that start with `prefix`, in table order. */
  function Matching(names: seq<string>, prefix: string): (r: seq<string>)
    ensures forall x :: x in r <==> x in names && StartsWith(x, prefix)
  {
    if names == [] then []
    else Matching(names[..|names| - 1], prefix)
         + (if StartsWith(names[|names| - 1], prefix) then [names[|names| - 1]] else [])
  }

  /** One more register read after `acc`, unless `acc` already raised. */
  function Extend(acc: (Outcome<seq<CmdInfo>>, Link), mm: MemMap, name: string, errnos: ErrnoTable)
    : (Outcome<seq<CmdInfo>>, Link)
  {
    match acc.0
    case Raised(e) => acc
    case Ok(done) =>
      var (one, l2) := ReadReg(mm, name, 0, None, acc.1, errnos);
      match one
      case Raised(e) => (Raised(e), l2)
      case Ok(info) => (Ok(done + [info]), l2)
  }

  /** The registers read in turn, threading the transport; the first
      exception ends the walk. */
  function ReadEach(mm: MemMap, names: seq<string>, link: Link, errnos: ErrnoTable): (Outcome<seq<CmdInfo>>, Link)
    decreases |names|
  {
    if names == [] then (Ok([]), link)
    else Extend(ReadEach(mm, names[..|names| - 1], link, errnos), mm, names[|names| - 1], errnos)
  }

  lemma ReadEachSnoc(mm: MemMap, a: seq<string>, x: string, link: Link, errnos: ErrnoTable)
    ensures ReadEach(mm, a + [x], link, errnos) == Extend(ReadEach(mm, a, link, errnos), mm, x, errnos)
  {
    assert (a + [x])[..|a|] == a;
  }

  /** `read_struct`: one `read_reg` per table key that starts with the
      prefix, in table order. */
  method ReadStruct(mm: MemMap, prefix: string, link: Link, errnos: ErrnoTable)
    returns (response: Outcome<seq<CmdInfo>>, link': Link)
    ensures (response, link') == ReadEach(mm, Matching(mm.names, prefix), link, errnos)
  {
    var done: seq<CmdInfo> := [];
    link' := link;
    for i := 0 to |mm.names|
      invariant (Ok(done), link') == ReadEach(mm, Matching(mm.names[..i], prefix), link, errnos)
    {
      var cmd := mm.names[i];
      ghost var walked := Matching(mm.names[..i], prefix);
      ghost var next := Matching(mm.names[..i + 1], prefix);
      MatchingSnoc(mm.names, i, prefix);
      if StartsWith(cmd, prefix) {
        assert next == walked + [cmd];
        var one;
        one, link' := ReadNext(mm, walked, cmd, link, errnos, done, link');
        if one.Raised? {
          response := Raised(one.exc);
          RaisedWalk(mm, prefix, i + 1, link, errnos);
          return;
        }
        done := one.value;
      } else {
        assert next == walked + [];
        assert walked + [] == walked;
      }
    }
    assert mm.names[..|mm.names|] == mm.names;
    response := Ok(done);
  }

  /** The body of the `read_struct` loop for a selected name: read the
      register and append its response, or stop with its exception. */
  method ReadNext(mm: MemMap, ghost walked: seq<string>, cmd: string, ghost link: Link, errnos: ErrnoTable,
                  done: seq<CmdInfo>, l: Link)
    returns (response: Outcome<seq<CmdInfo>>, l': Link)
    requires (Ok(done), l) == ReadEach(mm, walked, link, errnos)
    ensures (response, l') == ReadEach(mm, walked + [cmd], link, errnos)
  {
    WalkStep(mm, walked, cmd, link, errnos, done, l);
    var step := ReadReg(mm, cmd, 0, None, l, errnos);
    l' := step.1;
    if step.0.Raised? {
      response := Raised(step.0.exc);
    } else {
      response := Ok(done + [step.0.value]);
    }
  }

  /** One more register read after a successful walk. */
  lemma WalkStep(mm: MemMap, walked: seq<string>, cmd: string, link: Link, errnos: ErrnoTable,
                 done: seq<CmdInfo>, l: Link)
    requires (Ok(done), l) == ReadEach(mm, walked, link, errnos)
    ensures var step := ReadReg(mm, cmd, 0, None, l, errnos);
      && (step.0.Raised? ==> ReadEach(mm, walked + [cmd], link, errnos) == (Raised(step.0.exc), step.1))
      && (step.0.Ok? ==> ReadEach(mm, walked + [cmd], link, errnos) == (Ok(done + [step.0.value]), step.1))
  {
    ReadEachSnoc(mm, walked, cmd, link, errnos);
  }

  /** One more name either joins the selection or not. */
  lemma MatchingSnoc(names: seq<string>, i: nat, prefix: string)
    requires i < |names|
    ensures Matching(names[..i + 1], prefix)
         == Matching(names[..i], prefix) + (if StartsWith(names[i], prefix) then [names[i]] else [])
  {
    assert names[..i + 1][..i] == names[..i];
  }

  /** A walk over the first `i` selected names that raised is the whole walk. */
  lemma RaisedWalk(mm: MemMap, prefix: string, i: nat, link: Link, errnos: ErrnoTable)
    requires i <= |mm.names|
    requires ReadEach(mm, Matching(mm.names[..i], prefix), link, errnos).0.Raised?
    ensures ReadEach(mm, Matching(mm.names, prefix), link, errnos)
         == ReadEach(mm, Matching(mm.names[..i], prefix), link, errnos)
  {
    MatchingAppend(mm.names[..i], mm.names[i..], prefix);
    assert mm.names[..i] + mm.names[i..] == mm.names;
    ReadEachStops(mm, Matching(mm.names[..i], prefix), Matching(mm.names[i..], prefix), link, errnos);
  }

  lemma {:induction false} MatchingAppend(a: seq<string>, b: seq<string>, prefix: string)
    ensures Matching(a + b, prefix) == Matching(a, prefix) + Matching(b, prefix)
    decreases |b|
  {
    if b == [] {
      assert a + b == a;
    } else {
      MatchingAppend(a, b[..|b| - 1], prefix);
      assert (a + b)[..|a + b| - 1] == a + b[..|b| - 1];
      assert (a + b)[|a + b| - 1] == b[|b| - 1];
    }
  }

  /** Once a read raises, the reads after it are not attempted. */
  lemma {:induction false} ReadEachStops(mm: MemMap, a: seq<string>, b: seq<string>, link: Link, errnos: ErrnoTable)
    requires ReadEach(mm, a, link, errnos).0.Raised?
    ensures ReadEach(mm, a + b, link, errnos) == ReadEach(mm, a, link, errnos)
    decreases |b|
  {
    if b == [] {
      assert a + b == a;
    } else {
      ReadEachStops(mm, a, b[..|b| - 1], link, errnos);
      assert (a + b)[..|a + b| - 1] == a + b[..|b| - 1];
      assert ReadEach(mm, a + b, link, errnos)
          == Extend(ReadEach(mm, a + b[..|b| - 1], link, errnos), mm, b[|b| - 1], errnos);
    }
  }

  /** A read that extends a successful walk adds one response, naming its register. */
  lemma ExtendOk(acc: (Outcome<seq<CmdInfo>>, Link), mm: MemMap, name: string, errnos: ErrnoTable)
    requires Extend(acc, mm, name, errnos).0.Ok?
    ensures acc.0.Ok?
    ensures var r := Extend(acc, mm, name, errnos).0.value;
      r == acc.0.value + [r[|r| - 1]] && StartsWith(r[|r| - 1].msg, "cmd=" + name + " response=")
  {
  }

  /** Responses that each name their register, in order. */
  predicate Named(responses: seq<CmdInfo>, names: seq<string>) {
    |responses| == |names| &&
    forall i :: 0 <= i < |names| ==> StartsWith(responses[i].msg, "cmd=" + names[i] + " response=")
  }

  lemma NamedStep(acc: (Outcome<seq<CmdInfo>>, Link), mm: MemMap, init: seq<string>, name: string, errnos: ErrnoTable)
    requires acc.0.Ok? ==> Named(acc.0.value, init)
    ensures Extend(acc, mm, name, errnos).0.Ok? ==> Named(Extend(acc, mm, name, errnos).0.value, init + [name])
  {
    if Extend(acc, mm, name, errnos).0.Ok? {
      ExtendOk(acc, mm, name, errnos);
      var r := Extend(acc, mm, name, errnos).0.value;
      var names := init + [name];
      forall i | 0 <= i < |names|
        ensures StartsWith(r[i].msg, "cmd=" + names[i] + " response=")
      {
        if i < |init| {
          assert r[i] == acc.0.value[i] && names[i] == init[i];
        }
      }
    }
  }

  /** Every response of a structure read names its register, in table order. */
  lemma {:induction false} ReadEachNames(mm: MemMap, names: seq<string>, link: Link, errnos: ErrnoTable)
    ensures var r := ReadEach(mm, names, link, errnos).0;
      r.Ok? ==> (|r.value| == |names|
        && forall i :: 0 <= i < |names| ==> StartsWith(r.value[i].msg, "cmd=" + names[i] + " response="))
    decreases |names|
  {
    if names != [] {
      var init := names[..|names| - 1];
      var last := names[|names| - 1];
      ReadEachNames(mm, init, link, errnos);
      NamedStep(ReadEach(mm, init, link, errnos), mm, init, last, errnos);
      assert init + [last] == names;
    }
  }
}
