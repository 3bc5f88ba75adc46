/**
 * The PHP string built-ins the intake code relies on, as pure functions.
 * A PHP string is a byte string; where a component works on bytes, each
 * `char` below stands for one byte (code point below 256).
 */
module Php {

  datatype Option<T> = None | Some(value: T)

  /** PHP's empty() on a string value: true for "" and for "0". */
  predicate IsEmpty(s: string) {
    s == "" || s == "0"
  }

  /** The characters trim() removes by default: " \t\n\r\0\x0B". */
  predicate IsTrimChar(c: char) {
    c == ' ' || c == '\t' || c == '\n' || c == '\r' || c == '\0' || c == '\U{B}'
  }

  /** ltrim(). */
  function TrimStart(s: string): string
    decreases |s|
  {
    if s != [] && IsTrimChar(s[0]) then TrimStart(s[1..]) else s
  }

  /** rtrim(). */
  function TrimEnd(s: string): string
    decreases |s|
  {
    if s != [] && IsTrimChar(s[|s| - 1]) then TrimEnd(s[..|s| - 1]) else s
  }

  /** ltrim() removes a prefix of trim characters and stops at the first other character. */
  lemma {:induction false} TrimStartShape(s: string)
    ensures var r := TrimStart(s);
      |r| <= |s| && r == s[|s| - |r|..] &&
      (forall i :: 0 <= i < |s| - |r| ==> IsTrimChar(s[i])) &&
      (r == [] || !IsTrimChar(r[0]))
    decreases |s|
  {
    if s != [] && IsTrimChar(s[0]) {
      TrimStartShape(s[1..]);
      assert s[1..][|s| - 1 - |TrimStart(s[1..])|..] == s[|s| - |TrimStart(s[1..])|..];
      assert forall i :: 1 <= i < |s| ==> s[i] == s[1..][i - 1];
    }
  }

  /** rtrim() removes a suffix of trim characters and stops at the last other character. */
  lemma {:induction false} TrimEndShape(s: string)
    ensures var r := TrimEnd(s);
      |r| <= |s| && r == s[..|r|] &&
      (forall i :: |r| <= i < |s| ==> IsTrimChar(s[i])) &&
      (r == [] || !IsTrimChar(r[|r| - 1]))
    decreases |s|
  {
    if s != [] && IsTrimChar(s[|s| - 1]) {
      TrimEndShape(s[..|s| - 1]);
      assert s[..|s| - 1][..|TrimEnd(s[..|s| - 1])|] == s[..|TrimEnd(s[..|s| - 1])|];
      assert forall i :: 0 <= i < |s| - 1 ==> s[i] == s[..|s| - 1][i];
    }
  }

  /** trim(): the longest infix of `s` that neither starts nor ends with a trim character. */
  function Trim(s: string): (r: string)
  {
    TrimEnd(TrimStart(s))
  }

  /** What trim() leaves neither starts nor ends with a trim character. */
  lemma {:induction false} TrimShape(s: string)
    ensures var r := Trim(s); r == [] || (!IsTrimChar(r[0]) && !IsTrimChar(r[|r| - 1]))
  {
    TrimStartShape(s);
    TrimEnds(TrimStart(s));
  }

  /** Trimming twice is trimming once. */
  lemma {:induction false} TrimTwice(s: string)
    ensures Trim(Trim(s)) == Trim(s)
  {
    TrimShape(s);
    TrimIdle(Trim(s));
  }

  lemma {:induction false} TrimEnds(t: string)
    requires t == [] || !IsTrimChar(t[0])
    ensures var r := TrimEnd(t); r == [] || (!IsTrimChar(r[0]) && !IsTrimChar(r[|r| - 1]))
  {
    TrimEndShape(t);
    var r := TrimEnd(t);
    if r != [] {
      assert r[0] == t[0];
    }
  }

  /** A string whose ends are not trim characters is left alone by trim(). */
  lemma {:induction false} TrimIdle(s: string)
    requires s == [] || (!IsTrimChar(s[0]) && !IsTrimChar(s[|s| - 1]))
    ensures Trim(s) == s
  {
    assert TrimStart(s) == s;
  }

  /** PHP 8 strtoupper(): ASCII letters only, independent of locale. */
  function UpperChar(c: char): char {
    if 'a' <= c <= 'z' then (c as int - 32) as char else c
  }

  function Upper(s: string): (r: string)
    ensures |r| == |s|
  {
    seq(|s|, i requires 0 <= i < |s| => UpperChar(s[i]))
  }

  function LowerChar(c: char): char {
    if 'A' <= c <= 'Z' then (c as int + 32) as char else c
  }

  function Lower(s: string): (r: string)
    ensures |r| == |s|
  {
    seq(|s|, i requires 0 <= i < |s| => LowerChar(s[i]))
  }

  /** No character of `w` is one of `seps`. */
  predicate NoneIn(w: string, seps: set<char>) {
    forall j :: 0 <= j < |w| ==> w[j] !in seps
  }

  /**
   * Splitting on every occurrence of a separator character, keeping empty
   * pieces (explode(), preg_split() with a one-character class, and the
   * comma or newline splitting the CSV readers are reduced to).
   */
  function SplitOn(s: string, seps: set<char>): (parts: seq<string>)
    ensures |parts| >= 1
    ensures forall k :: 0 <= k < |parts| ==> NoneIn(parts[k], seps)
    decreases |s|
  {
    if s == [] then [""]
    else
      AddChar(SplitOn(s[..|s| - 1], seps), s[|s| - 1], seps)
  }

  /** The pieces after one more character: a separator opens a new piece,
      any other character extends the last one. */
  function AddChar(p: seq<string>, c: char, seps: set<char>): seq<string>
    requires |p| >= 1
  {
    if c in seps then p + [""] else p[..|p| - 1] + [p[|p| - 1] + [c]]
  }

  /**
   * preg_split() with a pattern `[...]+`: a run of separators counts as one
   * cut, so empty pieces appear only at the two ends.
   */
  function SplitRuns(s: string, seps: set<char>): (parts: seq<string>)
    ensures |parts| >= 1
    ensures forall k :: 0 <= k < |parts| ==> NoneIn(parts[k], seps)
    ensures forall k :: 0 < k < |parts| - 1 ==> parts[k] != ""
    decreases |s|
  {
    if s == [] then [""]
    else
      var p := SplitRuns(s[..|s| - 1], seps);
      var c := s[|s| - 1];
      if c in seps then
        (if |s| >= 2 && s[|s| - 2] in seps then p else p + [""])
      else p[..|p| - 1] + [p[|p| - 1] + [c]]
  }

  /** The non-empty pieces, in order (PREG_SPLIT_NO_EMPTY). */
  function NonEmpty(parts: seq<string>): (r: seq<string>)
    ensures forall k :: 0 <= k < |r| ==> r[k] != ""
    ensures |r| <= |parts|
  {
    if parts == [] then []
    else if parts[|parts| - 1] == "" then NonEmpty(parts[..|parts| - 1])
    else NonEmpty(parts[..|parts| - 1]) + [parts[|parts| - 1]]
  }

  /** The maximal runs of characters outside `seps`. */
  function Words(s: string, seps: set<char>): seq<string> {
    NonEmpty(SplitOn(s, seps))
  }

  /** implode(): the pieces with `sep` between neighbours. */
  function JoinWith(parts: seq<string>, sep: string): string
  {
    if parts == [] then ""
    else if |parts| == 1 then parts[0]
    else JoinWith(parts[..|parts| - 1], sep) + sep + parts[|parts| - 1]
  }

  /** A string without separators is a single piece. */
  lemma {:induction false} SplitNoSep(s: string, seps: set<char>)
    requires NoneIn(s, seps)
    ensures SplitOn(s, seps) == [s]
    decreases |s|
  {
    if s != [] {
      SplitNoSep(s[..|s| - 1], seps);
      assert s[..|s| - 1] + [s[|s| - 1]] == s;
    }
  }

  lemma {:induction false} SplitSnoc(s: string, x: char, seps: set<char>)
    ensures SplitOn(s + [x], seps) == AddChar(SplitOn(s, seps), x, seps)
  {
    assert (s + [x])[..|s|] == s;
  }

  lemma {:induction false} AddCharAppend(a: seq<string>, q: seq<string>, x: char, seps: set<char>)
    requires |q| >= 1
    ensures AddChar(a + q, x, seps) == a + AddChar(q, x, seps)
  {
    if x !in seps {
      assert (a + q)[..|a + q| - 1] == a + q[..|q| - 1];
    }
  }

  /** Cutting at one separator splits the pieces of the two sides apart. */
  lemma {:induction false} SplitAppend(a: string, c: char, b: string, seps: set<char>)
    requires c in seps
    ensures SplitOn(a + [c] + b, seps) == SplitOn(a, seps) + SplitOn(b, seps)
    decreases |b|
  {
    if b == [] {
      SplitSnoc(a, c, seps);
      assert a + [c] + b == a + [c];
    } else {
      var b', x := b[..|b| - 1], b[|b| - 1];
      assert b == b' + [x];
      SplitAppend(a, c, b', seps);
      assert a + [c] + b == (a + [c] + b') + [x];
      SplitSnoc(a + [c] + b', x, seps);
      SplitSnoc(b', x, seps);
      AddCharAppend(SplitOn(a, seps), SplitOn(b', seps), x, seps);
    }
  }

  lemma {:induction false} AddCharPrefix(p: string, q: seq<string>, x: char, seps: set<char>)
    requires |q| >= 1
    ensures var r := AddChar(q, x, seps);
      AddChar([p + q[0]] + q[1..], x, seps) == [p + r[0]] + r[1..]
  {
    var w := [p + q[0]] + q[1..];
    if x !in seps {
      if |q| == 1 {
        assert p + q[0] + [x] == p + (q[0] + [x]);
      } else {
        assert w[..|w| - 1] == [p + q[0]] + q[1..|q| - 1];
      }
    }
  }

  /** A prefix without separators only lengthens the first piece. */
  lemma {:induction false} SplitPrefix(p: string, s: string, seps: set<char>)
    requires NoneIn(p, seps)
    ensures var q := SplitOn(s, seps);
      SplitOn(p + s, seps) == [p + q[0]] + q[1..]
    decreases |s|
  {
    if s == [] {
      SplitNoSep(p, seps);
      assert p + s == p;
    } else {
      var s', x := s[..|s| - 1], s[|s| - 1];
      assert s == s' + [x];
      SplitPrefix(p, s', seps);
      assert p + s == (p + s') + [x];
      SplitSnoc(p + s', x, seps);
      SplitSnoc(s', x, seps);
      AddCharPrefix(p, SplitOn(s', seps), x, seps);
    }
  }

  lemma {:induction false} JoinSnoc(init: seq<string>, x: string, sep: string)
    ensures JoinWith(init + [x], sep) == if init == [] then x else JoinWith(init, sep) + sep + x
  {
    assert (init + [x])[..|init|] == init;
  }

  lemma {:induction false} JoinAddChar(p: seq<string>, x: char, c: char)
    requires |p| >= 1
    ensures JoinWith(AddChar(p, x, {c}), [c]) == JoinWith(p, [c]) + [x]
  {
    var n := |p|;
    var init, last := p[..n - 1], p[n - 1];
    assert p == init + [last];
    JoinSnoc(init, last, [c]);
    if x != c {
      JoinSnoc(init, last + [x], [c]);
    } else {
      JoinSnoc(p, "", [c]);
    }
  }

  /** Joining with a one-character separator undoes splitting on it. */
  lemma {:induction false} SplitJoin(s: string, c: char)
    ensures JoinWith(SplitOn(s, {c}), [c]) == s
    decreases |s|
  {
    if s != [] {
      var s', x := s[..|s| - 1], s[|s| - 1];
      assert s == s' + [x];
      SplitJoin(s', c);
      JoinAddChar(SplitOn(s', {c}), x, c);
    }
  }

  /** Splitting undoes joining, when no piece holds the separator. */
  lemma {:induction false} JoinSplit(parts: seq<string>, c: char)
    requires |parts| >= 1
    requires forall k :: 0 <= k < |parts| ==> NoneIn(parts[k], {c})
    ensures SplitOn(JoinWith(parts, [c]), {c}) == parts
    decreases |parts|
  {
    if |parts| == 1 {
      SplitNoSep(parts[0], {c});
    } else {
      var init, last := parts[..|parts| - 1], parts[|parts| - 1];
      assert parts == init + [last];
      assert forall k :: 0 <= k < |init| ==> init[k] == parts[k];
      JoinSplit(init, c);
      JoinSnoc(init, last, [c]);
      SplitAppend(JoinWith(init, [c]), c, last, {c});
      SplitNoSep(last, {c});
    }
  }

  /** The decimal digits of a natural number, as PHP prints an int. */
  function NatToString(n: nat): (r: string)
    ensures |r| >= 1
    ensures forall j :: 0 <= j < |r| ==> '0' <= r[j] <= '9'
    ensures |r| > 1 ==> r[0] != '0'
    decreases n
  {
    if n < 10 then [('0' as int + n) as char]
    else NatToString(n / 10) + [('0' as int + n % 10) as char]
  }

  /** The value of a string of decimal digits. */
  function DigitsValue(s: string): nat
    requires forall j :: 0 <= j < |s| ==> '0' <= s[j] <= '9'
  {
    if s == [] then 0 else 10 * DigitsValue(s[..|s| - 1]) + (s[|s| - 1] as int - '0' as int)
  }

  /** Reading back the printed digits gives the number: printing is injective. */
  lemma {:induction false} NatToStringRoundTrip(n: nat)
    ensures DigitsValue(NatToString(n)) == n
    decreases n
  {
    if n >= 10 {
      NatToStringRoundTrip(n / 10);
      var r := NatToString(n);
      assert r[..|r| - 1] == NatToString(n / 10);
    }
  }

  lemma {:induction false} NatToStringInjective(m: nat, n: nat)
    requires NatToString(m) == NatToString(n)
    ensures m == n
  {
    NatToStringRoundTrip(m);
    NatToStringRoundTrip(n);
  }

  /** The position of the first occurrence of `x` (array_search). */
  function IndexOf<T(==)>(s: seq<T>, x: T): (r: Option<nat>)
    ensures r.Some? ==> r.value < |s| && s[r.value] == x && x !in s[..r.value]
    ensures r.None? ==> x !in s
  {
    if s == [] then None
    else if s[0] == x then Some(0)
    else match IndexOf(s[1..], x)
      case None => None
      case Some(k) => assert s[1..][..k] == s[1..k + 1]; Some(k + 1)
  }

  /** unset() at a position followed by array_values(). */
  function RemoveAt<T>(s: seq<T>, k: nat): (r: seq<T>)
    requires k < |s|
    ensures |r| == |s| - 1
  {
    s[..k] + s[k + 1..]
  }

  /** The line terminator str_getcsv() ignores at the very end of its input: "\r\n", "\n" or "\r". */
  function DropLineEnd(s: string): (r: string)
    ensures |r| <= |s| && r == s[..|r|]
  {
    if |s| >= 2 && s[|s| - 2..] == "\r\n" then s[..|s| - 2]
    else if |s| >= 1 && (s[|s| - 1] == '\n' || s[|s| - 1] == '\r') then s[..|s| - 1]
    else s
  }

  /**
   * str_getcsv() on input without enclosure characters: a final line terminator is
   * dropped and the rest is split at every delimiter.
   */
  function GetCsv(s: string, delimiter: char): (fields: seq<string>)
    ensures |fields| >= 1
    ensures forall k :: 0 <= k < |fields| ==> delimiter !in fields[k]
  {
    var parts := SplitOn(DropLineEnd(s), {delimiter});
    assert forall k :: 0 <= k < |parts| ==> NoneIn(parts[k], {delimiter});
    parts
  }

  /** Lines each closed by a newline. */
  function Text(lines: seq<string>): string {
    if lines == [] then "" else lines[0] + "\n" + Text(lines[1..])
  }

  lemma {:induction false} TextSnoc(lines: seq<string>, l: string)
    ensures Text(lines + [l]) == Text(lines) + l + "\n"
    decreases |lines|
  {
    if lines == [] {
      assert [l][1..] == [];
    } else {
      assert (lines + [l])[1..] == lines[1..] + [l];
      TextSnoc(lines[1..], l);
    }
  }

  /** Reading newline-closed lines back splits them apart again, with one empty piece
      after the final newline. */
  lemma {:induction false} TextSplit(lines: seq<string>)
    requires forall k :: 0 <= k < |lines| ==> '\n' !in lines[k]
    ensures SplitOn(Text(lines), {'\n'}) == lines + [""]
    decreases |lines|
  {
    if lines != [] {
      var first, rest := lines[0], lines[1..];
      var t := Text(rest);
      assert forall k :: 0 <= k < |rest| ==> rest[k] == lines[k + 1];
      calc {
        SplitOn(Text(lines), {'\n'});
        SplitOn(first + ['\n'] + t, {'\n'});
        { SplitAppend(first, '\n', t, {'\n'}); }
        SplitOn(first, {'\n'}) + SplitOn(t, {'\n'});
        { SplitNoSep(first, {'\n'}); TextSplit(rest); }
        [first] + (rest + [""]);
        { assert lines == [first] + rest; }
        lines + [""];
      }
    }
  }
}
