/** The string logic of the interactive device shell: tab completion by
    prefix, the raw/filtered output switch, the choice of what to show
    for a command's results, and the splitting of a typed argument string.
    Printing is modelled as the sequence of values the shell would print. */
module DutPyShell {
  import opened Py
  import opened DutShell

  const RESULT_SUCCESS := "Success"

  // ---------------------------------------------------------------------
  // Completion

  /** The options starting with `mline`, in their original order. */
  function Candidates(options: seq<string>, mline: string): (r: seq<string>)
    ensures forall s :: s in r <==> s in options && StartsWith(s, mline)
    ensures |r| <= |options|
    decreases |options|
  {
    if options == [] then []
    else
      var rest := Candidates(options[1..], mline);
      assert forall s :: s in options <==> s == options[0] || s in options[1..];
      if StartsWith(options[0], mline) then [options[0]] + rest else rest
  }

  /** `_complete_cmd_list`: `mline` is what follows the first space of
      the line; each option starting with `mline` is offered without its
      first `len(mline) - len(text)` characters. */
  function Complete(options: seq<string>, text: string, line: string): (r: seq<string>)
    ensures |r| == |Candidates(options, AfterFirst(line, ' '))|
  {
    var mline := AfterFirst(line, ' ');
    var offs := |mline| - |text|;
    var c := Candidates(options, mline);
    seq(|c|, i requires 0 <= i < |c| => SliceFrom(c[i], offs))
  }

  /** `complete_rawdata`: the same rule over the two filter options. */
  function CompleteRawdata(text: string, line: string): (r: seq<string>)
    ensures |r| <= 2
  {
    Complete(["on", "off"], text, line)
  }

  /** What follows the command word is `before + text`, where `text` is the
      word being completed: every completion, put after `before`, is an
      option; it begins with `text`; and every option beginning with
      `before + text` is offered, as its part after `before`. */
  lemma CompletionReplacesWord(options: seq<string>, cmd: string, before: string, text: string)
    requires ' ' !in cmd
    ensures forall r :: r in Complete(options, text, cmd + " " + before + text) ==>
      before + r in options && StartsWith(r, text)
    ensures forall s :: s in options && StartsWith(s, before + text) ==>
      s[|before|..] in Complete(options, text, cmd + " " + before + text)
  {
    var line := cmd + " " + before + text;
    var mline := before + text;
    AfterCommand(cmd, mline);
    assert line == cmd + " " + mline;
    var c := Candidates(options, mline);
    var r := Complete(options, text, line);
    forall i | 0 <= i < |c|
      ensures |before| <= |c[i]| && r[i] == c[i][|before|..]
    {
      assert c[i] in c;
    }
    forall x | x in r
      ensures before + x in options && StartsWith(x, text)
    {
      var i :| 0 <= i < |r| && r[i] == x;
      assert c[i] in c;
      assert c[i][..|mline|] == mline;
      assert before + x == c[i];
    }
    forall s | s in options && StartsWith(s, before + text)
      ensures s[|before|..] in r
    {
      assert s in c;
      var i :| 0 <= i < |c| && c[i] == s;
      assert r[i] == s[|before|..];
    }
  }

  /** The text after the first space of a line whose first word has no
      space is everything after that word and its space. */
  lemma AfterCommand(cmd: string, rest: string)
    requires ' ' !in cmd
    ensures AfterFirst(cmd + " " + rest, ' ') == rest
  {
    var line := cmd + " " + rest;
    assert Find(line, ' ') == |cmd| by {
      assert line[|cmd|] == ' ';
      assert line[..|cmd|] == cmd;
    }
    assert line[|cmd| + 1..] == rest;
  }

  /** Completing the rawdata argument offers the options that the typed
      prefix selects. */
  lemma RawdataCompleteOf()
    ensures CompleteRawdata("of", "rawdata of") == ["off"]
  {
    RawdataArgument("of");
    OffCandidates();
    CompleteWholeWord(["on", "off"], "of", "rawdata of");
  }

  /** An argument that neither option starts with is offered nothing. */
  lemma RawdataCompleteNone(text: string, arg: string)
    requires ' ' !in arg && !StartsWith("on", arg) && !StartsWith("off", arg)
    ensures CompleteRawdata(text, "rawdata " + arg) == []
  {
    RawdataArgument(arg);
  }

  lemma RawdataArgument(arg: string)
    requires ' ' !in arg
    ensures AfterFirst("rawdata " + arg, ' ') == arg
  {
    AfterCommand("rawdata", arg);
    assert "rawdata" + " " + arg == "rawdata " + arg;
  }

  lemma OffCandidates()
    ensures Candidates(["on", "off"], "of") == ["off"]
  {
    assert !StartsWith("on", "of") by { assert "on"[..2] == "on"; }
    assert StartsWith("off", "of") by { assert "off"[..2] == "of"; }
    assert ["on", "off"][1..] == ["off"] && ["off"][1..] == [];
  }

  /** When the whole argument is the word being completed, the matching
      options are offered whole. */
  lemma CompleteWholeWord(options: seq<string>, text: string, line: string)
    requires AfterFirst(line, ' ') == text
    ensures Complete(options, text, line) == Candidates(options, text)
  {
    var c := Candidates(options, text);
    forall i | 0 <= i < |c|
      ensures SliceFrom(c[i], 0) == c[i]
    {
      assert c[i][0..] == c[i];
    }
  }

  // ---------------------------------------------------------------------
  // The raw/filtered switch

  /** `do_rawdata`: the new `data_only` flag and the message shown. */
  function RawdataNext(dataOnly: bool, arg: string): (bool, string) {
    if arg != "" then
      if Upper(arg) == "OFF" then (true, "Filtering for data")
      else if Upper(arg) == "ON" then (false, "Raw data, no filtering")
      else (dataOnly, "Incorrect arg")
    else if dataOnly then (false, "Raw data, no filtering")
    else (true, "Filtering for data")
  }

  /** `off` in any letter case filters, `on` in any letter case shows raw
      data, an empty argument flips the switch (twice restores it), and any
      other argument leaves it as it was. The message names the new mode. */
  lemma RawdataRules(dataOnly: bool, arg: string)
    ensures |arg| == 3 && arg[0] in "oO" && arg[1] in "fF" && arg[2] in "fF" ==>
      RawdataNext(dataOnly, arg) == (true, "Filtering for data")
    ensures |arg| == 2 && arg[0] in "oO" && arg[1] in "nN" ==>
      RawdataNext(dataOnly, arg) == (false, "Raw data, no filtering")
    ensures arg != "" && Upper(arg) != "OFF" && Upper(arg) != "ON" ==>
      RawdataNext(dataOnly, arg) == (dataOnly, "Incorrect arg")
    ensures RawdataNext(dataOnly, "").0 == !dataOnly
    ensures RawdataNext(RawdataNext(dataOnly, "").0, "").0 == dataOnly
    ensures RawdataNext(dataOnly, arg).1 ==
      if arg != "" && RawdataNext(dataOnly, arg).0 == dataOnly && Upper(arg) != "OFF" && Upper(arg) != "ON"
      then "Incorrect arg"
      else if RawdataNext(dataOnly, arg).0 then "Filtering for data" else "Raw data, no filtering"
  {
    if |arg| == 3 && arg[0] in "oO" && arg[1] in "fF" && arg[2] in "fF" {
      assert Upper(arg) == "OFF" by {
        assert Upper(arg)[0] == 'O' && Upper(arg)[1] == 'F' && Upper(arg)[2] == 'F';
      }
    }
    if |arg| == 2 && arg[0] in "oO" && arg[1] in "nN" {
      assert Upper(arg) == "ON" by {
        assert Upper(arg)[0] == 'O' && Upper(arg)[1] == 'N';
      }
    }
  }

  // ---------------------------------------------------------------------
  // Choosing what to show

  /** What the shell prints: `dumps(x)` of a value or of a whole result,
      or `print(x)` of the remembered result value. */
  datatype Printed = Dump(value: Json) | DumpRecord(rec: Record) | Show(shown: Json)

  /** A command's results: one result, or a list of them. */
  datatype Results = Single(rec: Record) | Listed(recs: seq<Record>)

  /** A single result is treated as a list of one. */
  function AsList(results: Results): (r: seq<Record>)
    ensures results.Single? ==> r == [results.rec]
    ensures results.Listed? ==> r == results.recs
  {
    match results
    case Single(rec) => [rec]
    case Listed(recs) => recs
  }

  /** `for x in v`: a list gives its items, a string its characters, an
      object its keys (each once, in first-seen order); any other value is
      not iterable. */
  function Elements(v: Json): (r: Outcome<seq<Json>>)
    ensures r.Raised? <==> !(v.JArr? || v.JStr? || v.JObj?)
    ensures r.Raised? ==> r.exc == TypeError
    ensures v.JArr? ==> r == Ok(v.items)
    ensures v.JStr? ==> r.Ok? && |r.value| == |v.s| && forall i :: 0 <= i < |v.s| ==> r.value[i] == JStr([v.s[i]])
    ensures v.JObj? ==>
      && r.Ok? && |r.value| == |Keys(v.fields)|
      && forall i :: 0 <= i < |r.value| ==> r.value[i] == JStr(Keys(v.fields)[i])
  {
    match v
    case JArr(items) => Ok(items)
    case JStr(s) => Ok(seq(|s|, i requires 0 <= i < |s| => JStr([s[i]])))
    case JObj(fields) =>
      var keys := Keys(fields);
      Ok(seq(|keys|, i requires 0 <= i < |keys| => JStr(keys[i])))
    case _ => Raised(TypeError)
  }

  /** Whether a result is shown through its `data` in filtered mode. */
  predicate Filtered(dataOnly: bool, res: Record) {
    dataOnly && "result" in res
  }

  /** What one result adds to the output. */
  function Lines(dataOnly: bool, res: Record): (r: Outcome<seq<Printed>>)
    ensures !Filtered(dataOnly, res) ==> r == Ok([DumpRecord(res)])
    ensures Filtered(dataOnly, res) && (res["result"] != JStr(RESULT_SUCCESS) || "data" !in res) ==> r == Ok([])
    ensures Filtered(dataOnly, res) && res["result"] == JStr(RESULT_SUCCESS) && "data" in res ==>
      && (r.Ok? <==> Elements(res["data"]).Ok?)
      && (r.Ok? ==> |r.value| == |Elements(res["data"]).value|
                    && forall i :: 0 <= i < |r.value| ==> r.value[i] == Dump(Elements(res["data"]).value[i]))
    ensures r.Raised? ==> r.exc == TypeError
  {
    if Filtered(dataOnly, res) then
      if res["result"] == JStr(RESULT_SUCCESS) && "data" in res then
        match Elements(res["data"])
        case Raised(e) => Raised(e)
        case Ok(items) => Ok(seq(|items|, i requires 0 <= i < |items| => Dump(items[i])))
      else Ok([])
    else Ok([DumpRecord(res)])
  }

  /** The result value remembered after `res`. */
  function Remembered(dataOnly: bool, res: Record, result: Json): Json {
    if Filtered(dataOnly, res) && res["result"] != JStr(RESULT_SUCCESS) then res["result"] else result
  }

  /** The walk over the results, with the value remembered so far and the
      output so far; a result whose data cannot be iterated stops it with
      the output printed before. */
  function Walk(dataOnly: bool, results: seq<Record>, result: Json, out: seq<Printed>): (r: (seq<Printed>, Option<Exc>))
    decreases |results|
  {
    if results == [] then
      (if out == [] then [Show(result)] else out, None)
    else
      match Lines(dataOnly, results[0])
      case Raised(e) => (out, Some(e))
      case Ok(lines) => Walk(dataOnly, results[1..], Remembered(dataOnly, results[0], result), out + lines)
  }

  /** `_print_func_result_success`: what is printed, and the exception that
      ends the printing early, if any. */
  function Report(dataOnly: bool, results: Results): (seq<Printed>, Option<Exc>) {
    Walk(dataOnly, AsList(results), JStr(RESULT_SUCCESS), [])
  }

  /** Every result dumped whole, in order. */
  function Dumped(rs: seq<Record>): (r: seq<Printed>)
    ensures |r| == |rs|
    decreases |rs|
  {
    if rs == [] then [] else [DumpRecord(rs[0])] + Dumped(rs[1..])
  }

  /** In raw mode every result is dumped, in order, and nothing else. */
  lemma {:induction false} RawWalk(rs: seq<Record>, result: Json, out: seq<Printed>)
    requires out != [] || rs != []
    ensures Walk(false, rs, result, out) == (out + Dumped(rs), None)
    decreases |rs|
  {
    if rs == [] {
      assert out + Dumped(rs) == out;
    } else {
      assert Lines(false, rs[0]) == Ok([DumpRecord(rs[0])]);
      assert Remembered(false, rs[0], result) == result;
      RawWalk(rs[1..], result, out + [DumpRecord(rs[0])]);
      assert out + [DumpRecord(rs[0])] + Dumped(rs[1..]) == out + Dumped(rs);
    }
  }

  lemma RawReport(results: Results)
    ensures AsList(results) != [] ==> Report(false, results) == (Dumped(AsList(results)), None)
    ensures AsList(results) == [] ==> Report(false, results) == ([Show(JStr(RESULT_SUCCESS))], None)
  {
    var rs := AsList(results);
    if rs != [] {
      RawWalk(rs, JStr(RESULT_SUCCESS), []);
      assert [] + Dumped(rs) == Dumped(rs);
    }
  }

  /** The last result value other than Success, or `result` if none. */
  function LastFailure(rs: seq<Record>, result: Json): Json
    decreases |rs|
  {
    if rs == [] then result
    else
      var last := rs[|rs| - 1];
      if "result" in last && last["result"] != JStr(RESULT_SUCCESS) then last["result"]
      else LastFailure(rs[..|rs| - 1], result)
  }

  /** A result that, in filtered mode, prints nothing of its own. */
  predicate Quiet(res: Record) {
    "result" in res &&
    (res["result"] != JStr(RESULT_SUCCESS) || "data" !in res || res["data"] == JArr([]) || res["data"] == JStr(""))
  }

  lemma {:induction false} QuietWalk(rs: seq<Record>, acc: seq<Record>, result: Json)
    requires forall i :: 0 <= i < |rs| ==> Quiet(rs[i])
    ensures Walk(true, rs, LastFailure(acc, result), []) == ([Show(LastFailure(acc + rs, result))], None)
    decreases |rs|
  {
    if rs == [] {
      assert acc + rs == acc;
    } else {
      var res := rs[0];
      assert Quiet(res);
      assert Lines(true, res) == Ok([]) by {
        if res["result"] == JStr(RESULT_SUCCESS) && "data" in res {
          var e := Elements(res["data"]);
          assert e.Ok? && |e.value| == 0;
          assert |Lines(true, res).value| == 0;
        }
      }
      assert Remembered(true, res, LastFailure(acc, result)) == LastFailure(acc + [res], result) by {
        assert (acc + [res])[..|acc + [res]| - 1] == acc;
      }
      var none: seq<Printed> := [];
      assert none + [] == none;
      QuietWalk(rs[1..], acc + [res], result);
      assert acc + [res] + rs[1..] == acc + rs;
    }
  }

  /** In filtered mode, when no result has data to print, the last result
      value other than Success is printed, or Success when all succeeded. */
  lemma FilteredFallback(results: Results)
    requires forall i :: 0 <= i < |AsList(results)| ==> Quiet(AsList(results)[i])
    ensures Report(true, results) == ([Show(LastFailure(AsList(results), JStr(RESULT_SUCCESS)))], None)
  {
    QuietWalk(AsList(results), [], JStr(RESULT_SUCCESS));
    assert [] + AsList(results) == AsList(results);
  }

  /** The data items of successful results, dumped in order. */
  function DataLines(items: seq<seq<Json>>): (r: seq<Printed>)
    decreases |items|
  {
    if items == [] then []
    else seq(|items[0]|, i requires 0 <= i < |items[0]| => Dump(items[0][i])) + DataLines(items[1..])
  }

  lemma {:induction false} DataWalk(rs: seq<Record>, items: seq<seq<Json>>, out: seq<Printed>)
    requires |rs| == |items|
    requires forall i :: 0 <= i < |rs| ==>
      "result" in rs[i] && rs[i]["result"] == JStr(RESULT_SUCCESS) && "data" in rs[i] && rs[i]["data"] == JArr(items[i])
    ensures var o := out + DataLines(items);
      Walk(true, rs, JStr(RESULT_SUCCESS), out) == (if o == [] then [Show(JStr(RESULT_SUCCESS))] else o, None)
    decreases |rs|
  {
    if rs == [] {
      assert out + DataLines(items) == out;
    } else {
      var first := seq(|items[0]|, i requires 0 <= i < |items[0]| => Dump(items[0][i]));
      assert Lines(true, rs[0]) == Ok(first);
      DataWalk(rs[1..], items[1..], out + first);
      assert out + first + DataLines(items[1..]) == out + DataLines(items);
    }
  }

  /** In filtered mode, when every result is a Success carrying a data list,
      exactly the data items are printed, in order, or Success when there
      are none. */
  lemma FilteredData(results: Results, items: seq<seq<Json>>)
    requires |AsList(results)| == |items|
    requires forall i :: 0 <= i < |items| ==>
      "result" in AsList(results)[i] && AsList(results)[i]["result"] == JStr(RESULT_SUCCESS) &&
      "data" in AsList(results)[i] && AsList(results)[i]["data"] == JArr(items[i])
    ensures Report(true, results) ==
      (if DataLines(items) == [] then [Show(JStr(RESULT_SUCCESS))] else DataLines(items), None)
  {
    DataWalk(AsList(results), items, []);
    assert [] + DataLines(items) == DataLines(items);
  }

  /** A result whose data cannot be iterated ends the printing with
      `TypeError`, after what the results before it printed. */
  lemma {:induction false} WalkStops(rs: seq<Record>, result: Json, out: seq<Printed>)
    ensures Walk(false, rs, result, out).1 == None
    ensures Walk(true, rs, result, out).1.Some? ==> Walk(true, rs, result, out).1 == Some(TypeError)
    ensures |Walk(true, rs, result, out).0| >= |out|
    ensures Walk(true, rs, result, out).0[..|out|] == out
    decreases |rs|
  {
    if rs != [] {
      match Lines(true, rs[0]) {
        case Raised(e) =>
        case Ok(lines) =>
          WalkStops(rs[1..], Remembered(true, rs[0], result), out + lines);
          assert (out + lines)[..|out|] == out;
      }
      var lines := Lines(false, rs[0]).value;
      WalkStops(rs[1..], Remembered(false, rs[0], result), out + lines);
    } else {
      assert out != [] ==> (if out == [] then [Show(result)] else out)[..|out|] == out;
    }
  }

  // ---------------------------------------------------------------------
  // Arguments

  /** The non-empty strings of `ps`, in order. */
  function NonEmpty(ps: seq<string>): (r: seq<string>)
    ensures forall s :: s in r <==> s in ps && s != ""
    ensures |r| <= |ps|
    decreases |ps|
  {
    if ps == [] then []
    else
      assert forall s :: s in ps <==> s == ps[0] || s in ps[1..];
      (if ps[0] != "" then [ps[0]] else []) + NonEmpty(ps[1..])
  }

  /** Dropping empty pieces keeps the order of the rest: it works piece by
      piece across a concatenation. */
  lemma {:induction false} NonEmptyAppend(a: seq<string>, b: seq<string>)
    ensures NonEmpty(a + b) == NonEmpty(a) + NonEmpty(b)
    decreases |a|
  {
    if a == [] {
      assert a + b == b;
    } else {
      NonEmptyAppend(a[1..], b);
      var head := if a[0] != "" then [a[0]] else [];
      assert (a + b)[0] == a[0] && (a + b)[1..] == a[1..] + b;
      assert NonEmpty(a + b) == head + NonEmpty(a[1..] + b);
      assert NonEmpty(a) == head + NonEmpty(a[1..]);
    }
  }

  /** Every non-empty piece is kept as often as it occurs, and only the
      empty ones are dropped. */
  lemma {:induction false} NonEmptyCount(ps: seq<string>)
    ensures multiset(NonEmpty(ps)) == multiset(ps)["" := 0]
    decreases |ps|
  {
    if ps != [] {
      NonEmptyCount(ps[1..]);
      assert ps == [ps[0]] + ps[1..];
      assert multiset(ps) == multiset{ps[0]} + multiset(ps[1..]);
    }
  }

  /** `_print_func_result`'s argument list: the pieces between single
      spaces, empty pieces dropped. */
  function FuncArgs(arg: string): (r: seq<string>)
    ensures forall k :: 0 <= k < |r| ==> r[k] != "" && ' ' !in r[k]
  {
    SplitCharNoSep(arg, ' ');
    var r := NonEmpty(Split(arg, " "));
    assert forall k :: 0 <= k < |r| ==> r[k] in Split(arg, " ");
    r
  }

  lemma {:induction false} NonEmptyAll(ps: seq<string>)
    requires forall k :: 0 <= k < |ps| ==> ps[k] != ""
    ensures NonEmpty(ps) == ps
    decreases |ps|
  {
    if ps != [] {
      NonEmptyAll(ps[1..]);
      assert [ps[0]] + ps[1..] == ps;
    }
  }

  /** Words separated by single spaces come back as the same argument list. */
  lemma FuncArgsOfWords(ws: seq<string>)
    requires |ws| >= 1
    requires forall k :: 0 <= k < |ws| ==> ws[k] != "" && ' ' !in ws[k]
    ensures FuncArgs(Join(ws, " ")) == ws
  {
    SplitJoin(ws, " ");
    NonEmptyAll(ws);
  }

  /** Extra spaces anywhere in the argument string change nothing. */
  lemma FuncArgsExample()
    ensures FuncArgs("") == []
    ensures FuncArgs(" a  b ") == ["a", "b"]
  {
    assert Split("", " ") == [""] by {
      assert "" + "" == "";
    }
    SpacedPieces();
    SpacedWords();
  }

  lemma SpacedWords()
    ensures NonEmpty(["", "a", "", "b", ""]) == ["a", "b"]
  {
    assert ["", "a", "", "b", ""][1..] == ["a", "", "b", ""];
    assert ["a", "", "b", ""][1..] == ["", "b", ""];
    assert ["", "b", ""][1..] == ["b", ""];
    assert ["b", ""][1..] == [""];
    assert [""][1..] == [];
  }

  lemma SpacedPieces()
    ensures Split(" a  b ", " ") == ["", "a", "", "b", ""]
  {
    var e: string := [];
    var s1 := [' '] + e;
    var s2 := ['b'] + s1;
    var s3 := [' '] + s2;
    var s4 := [' '] + s3;
    var s5 := ['a'] + s4;
    var s6 := [' '] + s5;
    assert SplitFrom(e, " ", "") == [e] by { assert |e| < 1 && "" + e == e; }
    assert e + ['b'] == "b" && e + ['a'] == "a" && e == "";
    SplitAtSpace(e, "b");
    assert SplitFrom(s1, " ", "b") == ["b", e];
    SplitPastChar('b', s1, e);
    assert SplitFrom(s2, " ", e) == ["b", e];
    SplitAtSpace(s2, e);
    assert SplitFrom(s3, " ", e) == [e, "b", e];
    SplitAtSpace(s3, "a");
    assert SplitFrom(s4, " ", "a") == ["a", e, "b", e];
    SplitPastChar('a', s4, e);
    assert SplitFrom(s5, " ", e) == ["a", e, "b", e];
    SplitAtSpace(s5, e);
    assert SplitFrom(s6, " ", e) == [e, "a", e, "b", e];
    assert s6 == " a  b ";
  }

  lemma SplitAtSpace(t: string, cur: string)
    ensures SplitFrom([' '] + t, " ", cur) == [cur] + SplitFrom(t, " ", "")
  {
    assert ([' '] + t)[..1] == " " && ([' '] + t)[1..] == t;
  }

  lemma SplitPastChar(c: char, t: string, cur: string)
    requires c != ' '
    ensures SplitFrom([c] + t, " ", cur) == SplitFrom(t, " ", cur + [c])
  {
    assert ([c] + t)[..1] == [c] && ([c] + t)[1..] == t;
  }

  // ---------------------------------------------------------------------
  // The shell

  /** The interactive shell's state: the device's command names (for
      completion) and whether only data is shown. */
  class PyShell {
    var cmdList: seq<string>
    var dataOnly: bool

    /** Filtered output unless raw data was asked for. */
    constructor(cmdList: seq<string>, rawdata: bool)
      ensures this.cmdList == cmdList && dataOnly == !rawdata
    {
      this.cmdList := cmdList;
      dataOnly := !rawdata;
    }

    /** `complete_send_cmd`: completion over the device's command names. */
    method CompleteSendCmd(text: string, line: string) returns (r: seq<string>)
      ensures r == Complete(cmdList, text, line)
    {
      var mline := AfterFirst(line, ' ');
      var offs := |mline| - |text|;
      r := [];
      for k := 0 to |cmdList|
        invariant CompletionsFrom(cmdList, mline, offs) == r + CompletionsFrom(cmdList[k..], mline, offs)
      {
        assert cmdList[k..][1..] == cmdList[k + 1..];
        if StartsWith(cmdList[k], mline) {
          r := r + [SliceFrom(cmdList[k], offs)];
        }
      }
      CompleteByOption(cmdList, text, line);
    }

    /** `do_rawdata`: sets the switch and returns the message shown. */
    method DoRawdata(arg: string) returns (shown: string)
      modifies this
      ensures (dataOnly, shown) == RawdataNext(old(dataOnly), arg)
      ensures cmdList == old(cmdList)
    {
      if arg != "" {
        var up := Upper(arg);
        if up == "OFF" {
          dataOnly := true;
          shown := "Filtering for data";
        } else if up == "ON" {
          dataOnly := false;
          shown := "Raw data, no filtering";
        } else {
          shown := "Incorrect arg";
        }
      } else if dataOnly {
        dataOnly := false;
        shown := "Raw data, no filtering";
      } else {
        dataOnly := true;
        shown := "Filtering for data";
      }
    }

    /** `_print_func_result_success`: what is printed for the results. */
    method PrintResults(results: Results) returns (out: seq<Printed>, raised: Option<Exc>)
      ensures (out, raised) == Report(dataOnly, results)
    {
      var rs := AsList(results);
      var result := JStr(RESULT_SUCCESS);
      out := [];
      var k := 0;
      while k < |rs|
        invariant 0 <= k <= |rs|
        invariant Report(dataOnly, results) == Walk(dataOnly, rs[k..], result, out)
      {
        var res := rs[k];
        assert rs[k..][0] == res && rs[k..][1..] == rs[k + 1..];
        if dataOnly && "result" in res {
          if res["result"] == JStr(RESULT_SUCCESS) {
            if "data" in res {
              var elems := Elements(res["data"]);
              if elems.Raised? {
                raised := Some(elems.exc);
                return;
              }
              var items := elems.value;
              ghost var before := out;
              for j := 0 to |items|
                invariant out == before + seq(j, i requires 0 <= i < j => Dump(items[i]))
              {
                out := out + [Dump(items[j])];
                assert seq(j + 1, i requires 0 <= i < j + 1 => Dump(items[i]))
                  == seq(j, i requires 0 <= i < j => Dump(items[i])) + [Dump(items[j])];
              }
              assert Lines(dataOnly, res) == Ok(seq(|items|, i requires 0 <= i < |items| => Dump(items[i])));
            } else {
              assert Lines(dataOnly, res) == Ok([]);
              assert out + [] == out;
            }
          } else {
            assert Lines(dataOnly, res) == Ok([]);
            assert out + [] == out;
            result := res["result"];
          }
        } else {
          assert Lines(dataOnly, res) == Ok([DumpRecord(res)]);
          out := out + [DumpRecord(res)];
        }
        k := k + 1;
      }
      assert rs[k..] == [];
      if out == [] {
        out := [Show(result)];
      }
      raised := None;
    }
  }

  /** The completions option by option, in the order the options come. */
  function CompletionsFrom(options: seq<string>, mline: string, offs: int): seq<string>
    decreases |options|
  {
    if options == [] then []
    else
      (if StartsWith(options[0], mline) then [SliceFrom(options[0], offs)] else [])
      + CompletionsFrom(options[1..], mline, offs)
  }

  /** `Complete` offers the completions option by option. */
  lemma {:induction false} CompleteByOption(options: seq<string>, text: string, line: string)
    ensures var mline := AfterFirst(line, ' ');
      Complete(options, text, line) == CompletionsFrom(options, mline, |mline| - |text|)
    decreases |options|
  {
    if options != [] {
      var mline := AfterFirst(line, ' ');
      var offs := |mline| - |text|;
      CompleteByOption(options[1..], text, line);
      var c := Candidates(options, mline);
      var rest := Candidates(options[1..], mline);
      var tail := Complete(options[1..], text, line);
      if StartsWith(options[0], mline) {
        assert c == [options[0]] + rest;
        assert Complete(options, text, line) == [SliceFrom(options[0], offs)] + tail;
      } else {
        assert c == rest;
      }
    }
  }
}
