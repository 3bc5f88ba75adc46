/**
 * The header handling of the upsert intake (Api/CompetitorUploadController): every
 * label is normalised, each expected label is mapped to the first column where it
 * occurs, and a file that lacks a required label is refused with the missing ones.
 * Strings here are sequences of decoded code points.
 */
module UploadHeader {
  import opened Php

  /** The labels looked up in the header, in lookup order. */
  const ExpectedLabels: seq<string> :=
    ["n.", "doc.", "nombre", "gen", "dep.", "colegio", "celular", "e-mail", "area", "nivel", "grado"]

  /** The labels a file must have; 'n.', 'gen' and 'e-mail' are optional. */
  const RequiredLabels: seq<string> :=
    ["doc.", "nombre", "dep.", "colegio", "celular", "area", "nivel", "grado"]

  const Bom: char := '﻿'

  /** preg_replace('/\x{FEFF}/u', '', $h): every U+FEFF removed. */
  function RemoveBom(s: string): (r: string)
    ensures Bom !in r
    decreases |s|
  {
    if s == [] then ""
    else RemoveBom(s[..|s| - 1]) + (if s[|s| - 1] == Bom then "" else [s[|s| - 1]])
  }

  /** The normalised label: U+FEFF removed, trimmed, lower-cased. */
  function NormalizeLabel(h: string): string {
    Lower(Trim(RemoveBom(h)))
  }

  function NormalizeHeader(header: seq<string>): (r: seq<string>)
    ensures |r| == |header|
  {
    seq(|header|, k requires 0 <= k < |header| => NormalizeLabel(header[k]))
  }

  /** The index map: each expected label that occurs, mapped to the first column
      holding it (array_search). */
  function IndexMap(norm: seq<string>, labels: seq<string>): map<string, nat>
    decreases |labels|
  {
    if labels == [] then map[]
    else
      var m := IndexMap(norm, labels[..|labels| - 1]);
      var h := labels[|labels| - 1];
      match IndexOf(norm, h)
      case Some(pos) => m[h := pos]
      case None => m
  }

  /** array_diff($required, array_keys($idx)), in the order of `labels`. */
  function Missing(labels: seq<string>, idx: map<string, nat>): seq<string>
    decreases |labels|
  {
    if labels == [] then []
    else
      var h := labels[|labels| - 1];
      Missing(labels[..|labels| - 1], idx) + (if h in idx then [] else [h])
  }

  /** The foreach building $idx. */
  method BuildIndex(norm: seq<string>) returns (idx: map<string, nat>)
    ensures idx == IndexMap(norm, ExpectedLabels)
  {
    idx := map[];
    var k := 0;
    while k < |ExpectedLabels|
      invariant 0 <= k <= |ExpectedLabels|
      invariant idx == IndexMap(norm, ExpectedLabels[..k])
    {
      var h := ExpectedLabels[k];
      assert ExpectedLabels[..k + 1][..k] == ExpectedLabels[..k];
      var pos := IndexOf(norm, h);
      if pos.Some? {
        idx := idx[h := pos.value];
      }
      k := k + 1;
    }
    assert ExpectedLabels[..k] == ExpectedLabels;
  }

  /** A label is in the map exactly when it is looked up and occurs in the header,
      and then it maps to the first column holding it. */
  lemma {:induction false} InIndexMap(norm: seq<string>, labels: seq<string>, h: string)
    ensures h in IndexMap(norm, labels) <==> h in labels && h in norm
    ensures h in IndexMap(norm, labels) ==>
      var pos := IndexMap(norm, labels)[h]; pos < |norm| && norm[pos] == h && h !in norm[..pos]
    decreases |labels|
  {
    if labels != [] {
      var init := labels[..|labels| - 1];
      InIndexMap(norm, init, h);
      assert labels == init + [labels[|labels| - 1]];
    }
  }

  /** A label is missing exactly when it is required and the map lacks it. */
  lemma {:induction false} InMissing(labels: seq<string>, idx: map<string, nat>, h: string)
    ensures h in Missing(labels, idx) <==> h in labels && h !in idx
    decreases |labels|
  {
    if labels != [] {
      var init := labels[..|labels| - 1];
      InMissing(init, idx, h);
      assert labels == init + [labels[|labels| - 1]];
    }
  }

  /** The whole check: a required label is reported missing exactly when no column
      of the normalised header holds it. */
  lemma MissingIff(header: seq<string>, h: string)
    ensures var norm := NormalizeHeader(header);
      h in Missing(RequiredLabels, IndexMap(norm, ExpectedLabels)) <==> h in RequiredLabels && h !in norm
  {
    var norm := NormalizeHeader(header);
    InMissing(RequiredLabels, IndexMap(norm, ExpectedLabels), h);
    InIndexMap(norm, ExpectedLabels, h);
  }

  /** Every required label is looked up. */
  lemma RequiredExpected()
    ensures forall h :: h in RequiredLabels ==> h in ExpectedLabels
  {
  }

  lemma {:induction false} RemoveBomAppend(a: string, b: string)
    ensures RemoveBom(a + b) == RemoveBom(a) + RemoveBom(b)
    decreases |b|
  {
    if b == [] {
      assert a + b == a;
    } else {
      var b', x := b[..|b| - 1], b[|b| - 1];
      assert a + b == (a + b') + [x];
      assert b == b' + [x];
      RemoveBomAppend(a, b');
    }
  }

  /** A byte order mark in front of a label does not change it. */
  lemma NormalizeBom(s: string)
    ensures NormalizeLabel([Bom] + s) == NormalizeLabel(s)
  {
    RemoveBomAppend([Bom], s);
    assert RemoveBom([Bom]) == "";
    assert [] + RemoveBom(s) == RemoveBom(s);
  }

  lemma {:induction false} UpperRemoveBom(s: string)
    ensures RemoveBom(Upper(s)) == Upper(RemoveBom(s))
    decreases |s|
  {
    if s != [] {
      var s', x := s[..|s| - 1], s[|s| - 1];
      UpperRemoveBom(s');
      assert Upper(s) == Upper(s') + [UpperChar(x)];
      var tail := if x == Bom then "" else [x];
      assert Upper(RemoveBom(s)) == Upper(RemoveBom(s')) + Upper(tail);
    }
  }

  lemma {:induction false} UpperTrimStart(s: string)
    ensures TrimStart(Upper(s)) == Upper(TrimStart(s))
    decreases |s|
  {
    if s != [] && IsTrimChar(s[0]) {
      assert Upper(s)[1..] == Upper(s[1..]);
      UpperTrimStart(s[1..]);
    }
  }

  lemma {:induction false} UpperTrimEnd(s: string)
    ensures TrimEnd(Upper(s)) == Upper(TrimEnd(s))
    decreases |s|
  {
    if s != [] && IsTrimChar(s[|s| - 1]) {
      assert Upper(s)[..|s| - 1] == Upper(s[..|s| - 1]);
      UpperTrimEnd(s[..|s| - 1]);
    }
  }

  lemma LowerUpper(s: string)
    ensures Lower(Upper(s)) == Lower(s)
  {
  }

  /** The case of a label does not matter. */
  lemma NormalizeCase(s: string)
    ensures NormalizeLabel(Upper(s)) == NormalizeLabel(s)
  {
    UpperRemoveBom(s);
    var t := RemoveBom(s);
    UpperTrimStart(t);
    UpperTrimEnd(TrimStart(t));
    LowerUpper(Trim(t));
  }
}
