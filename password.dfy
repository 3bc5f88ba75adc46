/**
 * generate_password of the API AuthController: the trimmed name is read byte by
 * byte into space-separated words, the first byte of every word is taken, the
 * initials are upper-cased and the CI is appended unchanged.
 */
module Password {
  import opened Php

  /** What the first loop has built after a prefix of the name: the words pushed so
      far and the word being read. */
  datatype Collected = Collected(words: seq<string>, current: string)

  /** The first loop of generate_password over `s`: a space ends a non-empty word,
      any other byte extends the current one. */
  function Collect(s: string): (c: Collected)
    ensures forall k :: 0 <= k < |c.words| ==> c.words[k] != ""
    decreases |s|
  {
    if s == [] then Collected([], "")
    else
      var c := Collect(s[..|s| - 1]);
      var x := s[|s| - 1];
      if x != ' ' then Collected(c.words, c.current + [x])
      else if c.current != "" then Collected(c.words + [c.current], "")
      else c
  }

  /** The words as written: after the loop the last word is pushed only when
      `!$name == ""` holds, which PHP reads as `(!$name) == ""`, that is, only when the
      word is neither "" nor "0". */
  function WordsAsWritten(s: string): (ws: seq<string>)
    ensures forall k :: 0 <= k < |ws| ==> ws[k] != ""
  {
    var c := Collect(s);
    if !IsEmpty(c.current) then c.words + [c.current] else c.words
  }

  /** The first byte of every word, in order. */
  function Initials(words: seq<string>): (r: string)
    requires forall k :: 0 <= k < |words| ==> words[k] != ""
    ensures |r| == |words|
    ensures forall k :: 0 <= k < |words| ==> r[k] == words[k][0]
  {
    if words == [] then ""
    else Initials(words[..|words| - 1]) + [words[|words| - 1][0]]
  }

  /** The password generate_password returns, as written. */
  function PasswordAsWritten(name: string, ci: string): string {
    Upper(Initials(WordsAsWritten(Trim(name)))) + ci
  }

  /** The password the routine is evidently meant to return: the upper-cased initials
      of every maximal run of non-space bytes of the trimmed name, then the CI. */
  function IntendedPassword(name: string, ci: string): string {
    Upper(Initials(Words(Trim(name), {' '}))) + ci
  }

  /** generate_password, loop by loop. */
  method GeneratePassword(name: string, ci: string) returns (password: string)
    ensures password == PasswordAsWritten(name, ci)
  {
    var fullName := Trim(name);
    var words: seq<string> := [];
    var current := "";
    var i := 0;
    while i < |fullName|
      invariant 0 <= i <= |fullName|
      invariant Collected(words, current) == Collect(fullName[..i])
    {
      assert fullName[..i + 1][..i] == fullName[..i];
      if fullName[i] != ' ' {
        current := current + [fullName[i]];
      } else if current != "" {
        words := words + [current];
        current := "";
      }
      i := i + 1;
    }
    assert fullName[..|fullName|] == fullName;
    if !IsEmpty(current) {
      words := words + [current];
    }
    var initials := "";
    var j := 0;
    while j < |words|
      invariant 0 <= j <= |words|
      invariant initials == Initials(words[..j])
    {
      assert words[..j + 1][..j] == words[..j];
      initials := initials + [words[j][0]];
      j := j + 1;
    }
    assert words[..|words|] == words;
    password := Upper(initials) + ci;
  }

  /** The first loop agrees with splitting at every space: the current word is the last
      piece and the words pushed are the non-empty earlier pieces. */
  lemma {:induction false} CollectSplits(s: string)
    ensures var c := Collect(s); var p := SplitOn(s, {' '});
      c.current == p[|p| - 1] && c.words == NonEmpty(p[..|p| - 1])
    decreases |s|
  {
    if s != [] {
      var s', x := s[..|s| - 1], s[|s| - 1];
      CollectSplits(s');
      var p' := SplitOn(s', {' '});
      var n := |p'|;
      assert SplitOn(s, {' '}) == AddChar(p', x, {' '});
      if x != ' ' {
        assert AddChar(p', x, {' '})[..n - 1] == p'[..n - 1];
      } else {
        assert AddChar(p', x, {' '})[..n] == p';
        assert p'[..n - 1] == p'[..n][..n - 1];
      }
    }
  }

  /** The words as written are the maximal runs of non-space bytes, except that a last
      word "0" is lost. */
  lemma WordsAsWrittenIntended(s: string)
    ensures Collect(s).current != "0" ==> WordsAsWritten(s) == Words(s, {' '})
    ensures Collect(s).current == "0" ==> WordsAsWritten(s) + ["0"] == Words(s, {' '})
  {
    CollectSplits(s);
    var p := SplitOn(s, {' '});
    assert p == p[..|p| - 1] + [p[|p| - 1]];
  }

  /** The two passwords differ only for a name whose last word is "0". */
  lemma PasswordAsWrittenIntended(name: string, ci: string)
    ensures Collect(Trim(name)).current != "0" <==> PasswordAsWritten(name, ci) == IntendedPassword(name, ci)
  {
    var s := Trim(name);
    WordsAsWrittenIntended(s);
    if Collect(s).current == "0" {
      assert |PasswordAsWritten(name, ci)| + 1 == |IntendedPassword(name, ci)|;
    }
  }

  /** The name "A 0": the routine as written returns the initial of "A" and the CI,
      while the initials of both words are evidently meant. */
  lemma LastZeroDropped()
    ensures PasswordAsWritten("A 0", "123") == "A123"
    ensures IntendedPassword("A 0", "123") == "A0123"
  {
    WordsOfA0();
    Spelled();
    InitialsOfTwo("A", "0");
    UpperIdle("A");
    UpperIdle("A0");
  }

  lemma WordsOfA0()
    ensures Trim("A 0") == "A 0"
    ensures WordsAsWritten("A 0") == ["A"] && Words("A 0", {' '}) == ["A", "0"]
  {
    TrimIdle("A 0");
    CollectOfA0();
    WordsAsWrittenIntended("A 0");
  }

  lemma Spelled()
    ensures "A" + "123" == "A123" && "A0" + "123" == "A0123"
  {
  }

  lemma InitialsOfTwo(a: string, b: string)
    requires a != "" && b != ""
    ensures Initials([a]) == [a[0]] && Initials([a, b]) == [a[0], b[0]]
  {
    assert [a, b][..1] == [a];
  }

  lemma CollectOfA0()
    ensures Collect("A 0") == Collected(["A"], "0")
  {
    var s := "A 0";
    assert s[..2] == "A ";
    assert "A "[..1] == "A";
    assert "A"[..0] == "";
    assert Collect("A") == Collected([], "A");
    assert Collect("A ") == Collected(["A"], "");
  }

  /** Upper-casing leaves a string without lower-case letters alone. */
  lemma UpperIdle(s: string)
    requires forall j :: 0 <= j < |s| ==> !('a' <= s[j] <= 'z')
    ensures Upper(s) == s
  {
  }

  /** One initial per word, then the CI unchanged, for the password as written. */
  lemma PasswordAsWrittenShape(name: string, ci: string)
    ensures var ws := WordsAsWritten(Trim(name)); var pw := PasswordAsWritten(name, ci);
      |pw| == |ws| + |ci| && pw[|ws|..] == ci &&
      forall k :: 0 <= k < |ws| ==> pw[k] == UpperChar(ws[k][0])
  {
  }

  /** The words of the intended reading are non-empty and hold no space, so repeated
      or leading spaces produce no empty word. */
  lemma WordsHaveNoSpace(s: string)
    ensures var ws := Words(s, {' '});
      forall k :: 0 <= k < |ws| ==> ws[k] != "" && ' ' !in ws[k]
  {
    var p := SplitOn(s, {' '});
    NonEmptyFrom(p);
    var ws := Words(s, {' '});
    forall k | 0 <= k < |ws|
      ensures ' ' !in ws[k]
    {
      var m :| 0 <= m < |p| && p[m] == ws[k];
      assert NoneIn(p[m], {' '});
    }
  }

  /** Every non-empty piece is one of the pieces. */
  lemma {:induction false} NonEmptyFrom(parts: seq<string>)
    ensures forall k :: 0 <= k < |NonEmpty(parts)| ==> NonEmpty(parts)[k] in parts
    decreases |parts|
  {
    if parts != [] {
      var init, last := parts[..|parts| - 1], parts[|parts| - 1];
      NonEmptyFrom(init);
      var r', r := NonEmpty(init), NonEmpty(parts);
      assert r == if last == "" then r' else r' + [last];
      forall k | 0 <= k < |r|
        ensures r[k] in parts
      {
        if k < |r'| {
          assert r[k] == r'[k] && r'[k] in init;
        }
      }
    }
  }

  /** One initial per word, then the CI unchanged, for the intended password. */
  lemma IntendedPasswordShape(name: string, ci: string)
    ensures var ws := Words(Trim(name), {' '}); var pw := IntendedPassword(name, ci);
      |pw| == |ws| + |ci| && pw[|ws|..] == ci &&
      forall k :: 0 <= k < |ws| ==> pw[k] == UpperChar(ws[k][0])
  {
  }

  lemma {:induction false} TrimSpaces(s: string)
    requires forall j :: 0 <= j < |s| ==> s[j] == ' '
    ensures Trim(s) == ""
  {
    TrimStartShape(s);
  }

  /** A name made only of spaces gives exactly the CI. */
  lemma OnlySpaces(name: string, ci: string)
    requires forall j :: 0 <= j < |name| ==> name[j] == ' '
    ensures PasswordAsWritten(name, ci) == ci
  {
    TrimSpaces(name);
  }
}
