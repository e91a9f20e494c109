/** Python built-ins the protocol code relies on, stated over `string`
    (`seq<char>`) and unbounded `int`: substring search and removal
    (`in`, `str.replace(x, '')`), `str.split`, `str.partition`, slicing,
    `int(x, 0)` / `int(x)` on a stated subset of their grammar, `str(n)`
    for integers and `bytes.fromhex`. Python exceptions become `Raised`. */
module Py {

  datatype Option<+T> = None | Some(value: T)

  /** The Python exceptions the modelled code can raise. */
  datatype Exc =
    | KeyError
    | ValueError
    | TypeError
    | IndexError
    | AttributeError
    | ZeroDivisionError
    | NotImplementedError

  /** The result of a Python call: a value, or an exception that propagates. */
  datatype Outcome<+T> = Ok(value: T) | Raised(exc: Exc) {
    predicate IsFailure() { Raised? }
    function PropagateFailure<U>(): Outcome<U>
      requires Raised?
    {
      Raised(exc)
    }
    function Extract(): T
      requires Ok?
    {
      value
    }
  }

  /** An element of a parsed list: `int(v, 0)` when that succeeds, else the text. */
  datatype Atom = AInt(i: int) | AStr(s: string)

  type byte = x: int | 0 <= x < 256

  // ---------------------------------------------------------------------
  // Substrings

  predicate StartsWith(s: string, p: string) {
    |p| <= |s| && s[..|p|] == p
  }

  /** Python's `p in s` for strings. */
  predicate Contains(s: string, p: string) {
    exists i | 0 <= i && i + |p| <= |s| :: OccursAt(s, p, i)
  }

  predicate OccursAt(s: string, p: string, i: nat)
    requires i + |p| <= |s|
  {
    s[i..i + |p|] == p
  }

  /** Python's `s.replace(pat, '')`: every non-overlapping occurrence of
      `pat`, scanned left to right, is deleted. */
  function RemoveAll(s: string, pat: string): (r: string)
    requires pat != []
    ensures |r| <= |s|
    decreases |s|
  {
    if |s| < |pat| then s
    else if s[..|pat|] == pat then RemoveAll(s[|pat|..], pat)
    else [s[0]] + RemoveAll(s[1..], pat)
  }

  /** Removing a single character leaves no occurrence of it, and keeps every
      other character. */
  lemma {:induction false} RemoveCharGone(s: string, c: char)
    ensures forall i :: 0 <= i < |RemoveAll(s, [c])| ==> RemoveAll(s, [c])[i] != c
    ensures |RemoveAll(s, [c])| == |s| - multiset(s)[c]
    decreases |s|
  {
    if |s| >= 1 {
      RemoveCharGone(s[1..], c);
      assert s == [s[0]] + s[1..];
      assert multiset(s) == multiset{s[0]} + multiset(s[1..]);
    }
  }

  /** Nothing to remove: the text comes back unchanged. */
  lemma {:induction false} RemoveAbsent(s: string, pat: string)
    requires pat != [] && !Contains(s, pat)
    ensures RemoveAll(s, pat) == s
    decreases |s|
  {
    if |s| >= |pat| {
      assert s[0..0 + |pat|] == s[..|pat|];
      assert !OccursAt(s, pat, 0);
      assert !Contains(s[1..], pat) by {
        forall i | 0 <= i && i + |pat| <= |s| - 1
          ensures !OccursAt(s[1..], pat, i)
        {
          assert s[1..][i..i + |pat|] == s[i + 1..i + 1 + |pat|];
          assert !OccursAt(s, pat, i + 1);
        }
      }
      RemoveAbsent(s[1..], pat);
      assert s == [s[0]] + s[1..];
    }
  }

  /** Index of the first occurrence of `c`, or -1 (Python's `str.find`). */
  function Find(s: string, c: char): (r: int)
    ensures -1 <= r < |s|
    ensures r == -1 <==> c !in s
    ensures r >= 0 ==> s[r] == c && c !in s[..r]
  {
    if s == [] then -1
    else if s[0] == c then 0
    else
      var k := Find(s[1..], c);
      assert s == [s[0]] + s[1..];
      if k == -1 then -1
      else
        assert s[..k + 1] == [s[0]] + s[1..][..k];
        k + 1
  }

  /** The first occurrence of `c` is at `k` when `s[k]` is `c` and no
      earlier character is. */
  lemma {:induction false} FindFirst(s: string, c: char, k: nat)
    requires k < |s| && s[k] == c && c !in s[..k]
    ensures Find(s, c) == k
    decreases k
  {
    if k > 0 {
      assert s[..k][0] == s[0];
      assert s[1..][..k - 1] == s[..k][1..];
      FindFirst(s[1..], c, k - 1);
    }
  }

  /** Python's `s[a:b]` for `0 <= a, b <= |s|`: empty when `b < a`. */
  function Slice(s: string, a: nat, b: nat): (r: string)
    requires a <= |s| && b <= |s|
    ensures |r| == if a <= b then b - a else 0
  {
    if a <= b then s[a..b] else ""
  }

  /** Python's `s[k:]` for any integer `k` (negative counts from the end). */
  function SliceFrom(s: string, k: int): (r: string)
    ensures k >= 0 ==> r == if k <= |s| then s[k..] else ""
    ensures k < 0 ==> r == if |s| + k >= 0 then s[|s| + k..] else s
  {
    if k >= 0 then (if k <= |s| then s[k..] else "")
    else if |s| + k >= 0 then s[|s| + k..] else s
  }

  /** Python's `s.partition(c)[2]`: the text after the first `c`, or "". */
  function AfterFirst(s: string, c: char): (r: string)
    ensures c !in s ==> r == ""
    ensures c in s ==> exists k :: 0 <= k < |s| && s[k] == c && c !in s[..k] && r == s[k + 1..]
  {
    var k := Find(s, c);
    if k < 0 then "" else s[k + 1..]
  }

  function UpperChar(c: char): char {
    if 'a' <= c <= 'z' then (c as int - 'a' as int + 'A' as int) as char else c
  }

  /** `str.upper()` restricted to ASCII letters. */
  function Upper(s: string): (r: string)
    ensures |r| == |s|
  {
    seq(|s|, i requires 0 <= i < |s| => UpperChar(s[i]))
  }

  // ---------------------------------------------------------------------
  // Splitting and joining

  /** Python's `s.split(sep)` with an explicit separator. */
  function Split(s: string, sep: string): (r: seq<string>)
    requires sep != []
    ensures |r| >= 1
  {
    SplitFrom(s, sep, "")
  }

  /** Splits `s`, where `cur` is the piece already collected before `s`. */
  function SplitFrom(s: string, sep: string, cur: string): (r: seq<string>)
    requires sep != []
    ensures |r| >= 1
    decreases |s|
  {
    if |s| < |sep| then [cur + s]
    else if s[..|sep|] == sep then [cur] + SplitFrom(s[|sep|..], sep, "")
    else SplitFrom(s[1..], sep, cur + [s[0]])
  }

  predicate Distinct(s: seq<string>) {
    forall i, j :: 0 <= i < j < |s| ==> s[i] != s[j]
  }

  /** Each sequence element once, at its first position. */
  function Dedup(s: seq<string>): (r: seq<string>)
    ensures Distinct(r)
    ensures forall x :: x in r <==> x in s
  {
    if s == [] then []
    else
      var d := Dedup(s[..|s| - 1]);
      assert forall x :: x in s <==> x in s[..|s| - 1] || x == s[|s| - 1];
      if s[|s| - 1] in d then d else d + [s[|s| - 1]]
  }

  /** `s[::-1]`. */
  function Reverse<T>(s: seq<T>): (r: seq<T>)
    ensures |r| == |s|
    ensures forall i :: 0 <= i < |s| ==> r[i] == s[|s| - 1 - i]
  {
    if s == [] then [] else Reverse(s[1..]) + [s[0]]
  }

  lemma ReverseReverse<T>(s: seq<T>)
    ensures Reverse(Reverse(s)) == s
  {
  }

  /** Python's `sep.join(ps)`. */
  function Join(ps: seq<string>, sep: string): string {
    if |ps| == 0 then ""
    else if |ps| == 1 then ps[0]
    else ps[0] + sep + Join(ps[1..], sep)
  }

  /** `"\n".join` and friends: a character in no piece and not in the
      separator is not in the joined text. */
  lemma {:induction false} JoinHasNo(ps: seq<string>, sep: string, c: char)
    requires c !in sep && forall k :: 0 <= k < |ps| ==> c !in ps[k]
    ensures c !in Join(ps, sep)
  {
    if |ps| > 1 {
      JoinHasNo(ps[1..], sep, c);
    }
  }

  /** The converse: a character absent from the joined text is in no piece. */
  lemma {:induction false} JoinPiecesHaveNo(ps: seq<string>, sep: string, c: char)
    requires c !in Join(ps, sep)
    ensures forall k :: 0 <= k < |ps| ==> c !in ps[k]
  {
    if |ps| > 1 {
      assert Join(ps, sep) == ps[0] + sep + Join(ps[1..], sep);
      JoinPiecesHaveNo(ps[1..], sep, c);
      assert forall k :: 1 <= k < |ps| ==> ps[k] == ps[1..][k - 1];
    }
  }

  /** Removing a character that occurs only at the end drops just that end. */
  lemma {:induction false} RemoveTrailing(s: string, c: char)
    requires c !in s
    ensures RemoveAll(s + [c], [c]) == s
    decreases |s|
  {
    if s != [] {
      assert (s + [c])[..1] == [s[0]];
      assert (s + [c])[1..] == s[1..] + [c];
      RemoveTrailing(s[1..], c);
      assert [s[0]] + s[1..] == s;
    }
  }

  /** Appending a piece appends the separator and the piece. */
  lemma {:induction false} JoinAppend(ps: seq<string>, sep: string, t: string)
    requires |ps| >= 1
    ensures Join(ps + [t], sep) == Join(ps, sep) + sep + t
  {
    if |ps| > 1 {
      JoinAppend(ps[1..], sep, t);
      assert (ps + [t])[1..] == ps[1..] + [t];
    }
  }

  lemma {:induction false} JoinSplitFrom(s: string, sep: string, cur: string)
    requires sep != []
    ensures Join(SplitFrom(s, sep, cur), sep) == cur + s
    decreases |s|
  {
    if |s| < |sep| {
    } else if s[..|sep|] == sep {
      var rest := SplitFrom(s[|sep|..], sep, "");
      JoinSplitFrom(s[|sep|..], sep, "");
      assert [cur] + rest == SplitFrom(s, sep, cur);
      assert ([cur] + rest)[1..] == rest;
      assert s == sep + s[|sep|..];
    } else {
      JoinSplitFrom(s[1..], sep, cur + [s[0]]);
      assert s == [s[0]] + s[1..];
    }
  }

  /** Splitting loses nothing: joining the pieces with the separator gives
      back the original text. */
  lemma JoinSplit(s: string, sep: string)
    requires sep != []
    ensures Join(Split(s, sep), sep) == s
  {
    JoinSplitFrom(s, sep, "");
  }

  lemma {:induction false} SplitFromNoSep(s: string, c: char, cur: string)
    requires c !in cur
    ensures forall k :: 0 <= k < |SplitFrom(s, [c], cur)| ==> c !in SplitFrom(s, [c], cur)[k]
    decreases |s|
  {
    if |s| < 1 {
    } else if s[..1] == [c] {
      SplitFromNoSep(s[1..], c, "");
    } else {
      assert s[0] != c by { assert s[..1] == [s[0]]; }
      SplitFromNoSep(s[1..], c, cur + [s[0]]);
    }
  }

  /** Splitting on one character leaves no piece containing it. */
  lemma SplitCharNoSep(s: string, c: char)
    ensures forall k :: 0 <= k < |Split(s, [c])| ==> c !in Split(s, [c])[k]
  {
    SplitFromNoSep(s, c, "");
  }

  lemma {:induction false} SplitFromNoSepAll(p: string, sep: string, cur: string)
    requires sep != [] && sep[0] !in p
    ensures SplitFrom(p, sep, cur) == [cur + p]
    decreases |p|
  {
    if |p| >= |sep| {
      assert p[..|sep|][0] == p[0];
      SplitFromNoSepAll(p[1..], sep, cur + [p[0]]);
      assert cur + [p[0]] + p[1..] == cur + p;
    } else {
      assert cur + p == cur + p;
    }
  }

  lemma {:induction false} SplitFromPrefix(p: string, t: string, sep: string, cur: string)
    requires sep != [] && sep[0] !in p
    ensures SplitFrom(p + sep + t, sep, cur) == [cur + p] + SplitFrom(t, sep, "")
    decreases |p|
  {
    var s := p + sep + t;
    if p == [] {
      assert s[..|sep|] == sep && s[|sep|..] == t;
      assert cur + p == cur;
    } else {
      assert s[..|sep|][0] == p[0];
      assert s[1..] == p[1..] + sep + t;
      SplitFromPrefix(p[1..], t, sep, cur + [p[0]]);
      assert cur + [p[0]] + p[1..] == cur + p;
    }
  }

  /** Joining pieces that do not contain the separator's first character
      and splitting again gives back the same pieces. */
  lemma {:induction false} SplitJoin(ps: seq<string>, sep: string)
    requires |ps| >= 1 && sep != []
    requires forall k :: 0 <= k < |ps| ==> sep[0] !in ps[k]
    ensures Split(Join(ps, sep), sep) == ps
  {
    if |ps| == 1 {
      SplitFromNoSepAll(ps[0], sep, "");
      assert "" + ps[0] == ps[0];
    } else {
      SplitJoin(ps[1..], sep);
      SplitFromPrefix(ps[0], Join(ps[1..], sep), sep, "");
      assert "" + ps[0] == ps[0];
      assert ps == [ps[0]] + ps[1..];
    }
  }

  // ---------------------------------------------------------------------
  // Integers as text

  predicate IsDigit(c: char) { '0' <= c <= '9' }

  predicate IsHexDigit(c: char) { IsDigit(c) || 'a' <= c <= 'f' || 'A' <= c <= 'F' }

  predicate AllDigits(s: string) { forall i :: 0 <= i < |s| ==> IsDigit(s[i]) }

  predicate AllHexDigits(s: string) { forall i :: 0 <= i < |s| ==> IsHexDigit(s[i]) }

  predicate AllZeros(s: string) { forall i :: 0 <= i < |s| ==> s[i] == '0' }

  function DigitValue(c: char): (d: nat)
    requires IsHexDigit(c)
    ensures d < 16 && (IsDigit(c) ==> d < 10)
  {
    if IsDigit(c) then c as int - '0' as int
    else if 'a' <= c <= 'f' then c as int - 'a' as int + 10
    else c as int - 'A' as int + 10
  }

  /** The value of a digit string in base `b`, most significant digit first. */
  function ValueIn(s: string, b: nat): nat
    requires b == 10 || b == 16
    requires AllHexDigits(s)
    requires b == 10 ==> AllDigits(s)
  {
    if s == [] then 0 else ValueIn(s[..|s| - 1], b) * b + DigitValue(s[|s| - 1])
  }

  /** The unsigned part of `int(s, 0)`: `0x`/`0X` hex, or decimal without
      leading zeros (a run of zeros alone is allowed). */
  function ParseUnsigned0(s: string): Option<nat> {
    if |s| >= 2 && s[0] == '0' && (s[1] == 'x' || s[1] == 'X') then
      if |s| > 2 && AllHexDigits(s[2..]) then Some(ValueIn(s[2..], 16)) else None
    else if s != [] && AllDigits(s) && (s[0] != '0' || AllZeros(s)) then Some(ValueIn(s, 10))
    else None
  }

  /** `int(s, 0)`: an optional sign, then `ParseUnsigned0`. `None` stands for `ValueError`. */
  function ParseInt0(s: string): Option<int> {
    if s != [] && (s[0] == '-' || s[0] == '+') then
      match ParseUnsigned0(s[1..])
      case Some(n) => var v: int := if s[0] == '-' then -(n as int) else n; Some(v)
      case None => None
    else
      match ParseUnsigned0(s)
      case Some(n) => Some(n)
      case None => None
  }

  /** `int(s)`: an optional sign, then one or more decimal digits. */
  function ParseInt10(s: string): Option<int> {
    if s != [] && (s[0] == '-' || s[0] == '+') then
      if |s| > 1 && AllDigits(s[1..]) then
        var n := ValueIn(s[1..], 10);
        var v: int := if s[0] == '-' then -(n as int) else n;
        Some(v)
      else None
    else if s != [] && AllDigits(s) then Some(ValueIn(s, 10))
    else None
  }

  function DigitChar(d: nat): (c: char)
    requires d < 16
    ensures IsHexDigit(c) && DigitValue(c) == d
    ensures d < 10 <==> IsDigit(c)
  {
    if d < 10 then ('0' as int + d) as char else ('a' as int + d - 10) as char
  }

  /** `str(n)` for a natural number. */
  function NatToString(n: nat): (r: string)
    ensures r != [] && AllDigits(r)
    ensures r[0] == '0' ==> n == 0 && r == "0"
    decreases n
  {
    if n < 10 then [DigitChar(n)] else NatToString(n / 10) + [DigitChar(n % 10)]
  }

  /** `str(i)` for an integer. */
  function IntToString(i: int): string {
    if i < 0 then "-" + NatToString(-i) else NatToString(i)
  }

  lemma {:induction false} ValueOfNatToString(n: nat)
    ensures ValueIn(NatToString(n), 10) == n
    decreases n
  {
    if n >= 10 {
      ValueOfNatToString(n / 10);
      var s := NatToString(n);
      assert s[..|s| - 1] == NatToString(n / 10);
    }
  }

  lemma IntToStringNoSpace(i: int)
    ensures ' ' !in IntToString(i) && ',' !in IntToString(i)
    ensures '[' !in IntToString(i) && ']' !in IntToString(i)
  {
    var t := NatToString(if i < 0 then -i else i);
    assert forall k :: 0 <= k < |t| ==> IsDigit(t[k]);
    if i < 0 {
      assert IntToString(i) == "-" + t;
    }
  }

  /** The decimal text of an integer reads back, under `int(s, 0)`, as that integer. */
  lemma ParseInt0OfIntToString(i: int)
    ensures ParseInt0(IntToString(i)) == Some(i)
  {
    var n: nat := if i < 0 then -i else i;
    var t := NatToString(n);
    ValueOfNatToString(n);
    assert t[0] != 'x' && t[0] != 'X';
    assert t[0] != '0' || AllZeros(t);
    assert ParseUnsigned0(t) == Some(n);
    if i < 0 {
      assert ("-" + t)[1..] == t;
    } else {
      assert t[0] != '-' && t[0] != '+';
    }
  }

  /** The decimal text of an integer reads back, under `int(s)`, as that integer. */
  lemma ParseInt10OfIntToString(i: int)
    ensures ParseInt10(IntToString(i)) == Some(i)
  {
    var n: nat := if i < 0 then -i else i;
    ValueOfNatToString(n);
    if i < 0 {
      assert ("-" + NatToString(n))[1..] == NatToString(n);
    }
  }

  // ---------------------------------------------------------------------
  // Hex byte strings

  /** `bytes.fromhex(s)` for text without whitespace: pairs of hex digits. */
  function FromHex(s: string): (r: Option<seq<byte>>)
    ensures r.Some? ==> 2 * |r.value| == |s|
    decreases |s|
  {
    if s == [] then Some([])
    else if |s| >= 2 && IsHexDigit(s[0]) && IsHexDigit(s[1]) then
      match FromHex(s[2..])
      case Some(rest) => Some([DigitValue(s[0]) * 16 + DigitValue(s[1])] + rest)
      case None => None
    else None
  }

  /** Two lower-case hex digits per byte, first byte first. */
  function HexEncode(bs: seq<byte>): (s: string)
    ensures |s| == 2 * |bs|
  {
    if bs == [] then "" else [DigitChar(bs[0] / 16), DigitChar(bs[0] % 16)] + HexEncode(bs[1..])
  }

  /** Hex text is made of hex digits only, so `0x` never occurs in it. */
  lemma {:induction false} HexEncodeNoPrefix(bs: seq<byte>)
    ensures AllHexDigits(HexEncode(bs))
    ensures !Contains(HexEncode(bs), "0x")
  {
    if bs != [] {
      HexEncodeNoPrefix(bs[1..]);
      var h := HexEncode(bs);
      assert h == [DigitChar(bs[0] / 16), DigitChar(bs[0] % 16)] + HexEncode(bs[1..]);
      assert AllHexDigits(h) by {
        forall i | 0 <= i < |h| ensures IsHexDigit(h[i]) {
          if i >= 2 {
            assert h[i] == HexEncode(bs[1..])[i - 2];
          }
        }
      }
    }
    var h := HexEncode(bs);
    forall i | 0 <= i && i + 2 <= |h|
      ensures !OccursAt(h, "0x", i)
    {
      assert IsHexDigit(h[i + 1]);
      assert h[i..i + 2][1] == h[i + 1];
    }
  }

  /** `bytes.fromhex` reverses `HexEncode`. */
  lemma {:induction false} FromHexEncode(bs: seq<byte>)
    ensures FromHex(HexEncode(bs)) == Some(bs)
  {
    if bs != [] {
      var s := HexEncode(bs);
      assert s[2..] == HexEncode(bs[1..]);
      FromHexEncode(bs[1..]);
      assert [bs[0]] + bs[1..] == bs;
    }
  }

  // ---------------------------------------------------------------------
  // `repr` of a string

  /** One character as `repr` shows it inside the quote `q`: the quote and
      the backslash escaped, tab, newline and carriage return by name, other
      ASCII control characters as `\xhh`. Characters beyond ASCII are shown
      as they are. */
  function ReprChar(c: char, q: char): string {
    if c == q || c == '\\' then ['\\', c]
    else if c == '\t' then "\\t"
    else if c == '\n' then "\\n"
    else if c == '\r' then "\\r"
    else if c < ' ' || c == 0x7f as char then "\\x" + [DigitChar(c as int / 16), DigitChar(c as int % 16)]
    else [c]
  }

  function ReprBody(s: string, q: char): string
    decreases |s|
  {
    if s == [] then "" else ReprChar(s[0], q) + ReprBody(s[1..], q)
  }

  /** Python's `repr(s)`: single quotes, unless `s` holds a single quote
      and no double quote. */
  function Repr(s: string): (r: string)
    ensures |r| >= 2 && r[0] == r[|r| - 1]
    ensures r[0] == (if '\'' in s && '"' !in s then '"' else '\'')
  {
    var q := if '\'' in s && '"' !in s then '"' else '\'';
    [q] + ReprBody(s, q) + [q]
  }

  /** `%.{n}R`: the repr cut to at most `n` characters. */
  function Truncate(s: string, n: nat): (r: string)
    ensures |r| <= n && StartsWith(s, r)
    ensures |s| <= n ==> r == s
  {
    if |s| <= n then s else s[..n]
  }

  /** Printable ASCII other than the single quote and the backslash. */
  predicate Plain(s: string) {
    forall i :: 0 <= i < |s| ==> ' ' <= s[i] <= '~' && s[i] != '\'' && s[i] != '\\'
  }

  lemma {:induction false} ReprBodyPlain(s: string)
    requires Plain(s)
    ensures ReprBody(s, '\'') == s
    decreases |s|
  {
    if s != [] {
      ReprBodyPlain(s[1..]);
      assert ReprChar(s[0], '\'') == [s[0]];
      assert [s[0]] + s[1..] == s;
    }
  }

  /** A plain string is shown between single quotes, unchanged. */
  lemma ReprPlain(s: string)
    requires Plain(s)
    ensures Repr(s) == "'" + s + "'"
  {
    assert '\'' !in s by {
      forall i | 0 <= i < |s| ensures s[i] != '\'' { }
    }
    ReprBodyPlain(s);
  }
}
