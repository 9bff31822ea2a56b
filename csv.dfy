/**
 * The `data` field of the record: every sample, formatted to one decimal
 * place, joined with "," (src/main.cpp:69-74), and the decoder that splits
 * the field on "," and parses each part back.
 */
module Csv {
  import opened Wrappers
  import Decimal

  predicate NoComma(s: string) {
    forall i :: 0 <= i < |s| ==> s[i] != ','
  }

  /** The parts in order with one "," between neighbours. */
  function Join(parts: seq<string>): string {
    if |parts| == 0 then ""
    else if |parts| == 1 then parts[0]
    else parts[0] + "," + Join(parts[1..])
  }

  /** Appending one part is what the builder loop does on each iteration after the first. */
  lemma {:induction false} JoinSnoc(parts: seq<string>, p: string)
    requires |parts| >= 1
    ensures Join(parts + [p]) == Join(parts) + "," + p
  {
    if |parts| > 1 {
      assert (parts + [p])[1..] == parts[1..] + [p];
      JoinSnoc(parts[1..], p);
    }
  }

  /** The index of the first ",", or |s| when there is none. */
  function IndexOfComma(s: string): (k: nat)
    ensures k <= |s|
    ensures k < |s| ==> s[k] == ','
    ensures forall j :: 0 <= j < k ==> s[j] != ','
  {
    if |s| == 0 then 0
    else if s[0] == ',' then 0
    else 1 + IndexOfComma(s[1..])
  }

  /** The pieces of s between commas, in order; a string without commas is one piece. */
  function Split(s: string): (parts: seq<string>)
    ensures |parts| >= 1
    ensures forall i :: 0 <= i < |parts| ==> NoComma(parts[i])
    decreases |s|
  {
    var k := IndexOfComma(s);
    if k == |s| then [s] else [s[..k]] + Split(s[k + 1..])
  }

  lemma {:induction false} SplitJoin(parts: seq<string>)
    requires |parts| >= 1
    requires forall i :: 0 <= i < |parts| ==> NoComma(parts[i])
    ensures Split(Join(parts)) == parts
  {
    var s := Join(parts);
    if |parts| == 1 {
      assert IndexOfComma(s) == |s|;
    } else {
      var rest := Join(parts[1..]);
      assert s == parts[0] + "," + rest;
      assert s[|parts[0]|] == ',';
      assert IndexOfComma(s) == |parts[0]|;
      assert s[..|parts[0]|] == parts[0];
      assert s[|parts[0]| + 1..] == rest;
      SplitJoin(parts[1..]);
    }
  }

  function CountChar(s: string, ch: char): nat {
    if |s| == 0 then 0 else (if s[0] == ch then 1 else 0) + CountChar(s[1..], ch)
  }

  lemma {:induction false} CountCharAppend(a: string, b: string, ch: char)
    ensures CountChar(a + b, ch) == CountChar(a, ch) + CountChar(b, ch)
  {
    if |a| > 0 {
      assert (a + b)[1..] == a[1..] + b;
      CountCharAppend(a[1..], b, ch);
    } else {
      assert a + b == b;
    }
  }

  lemma {:induction false} CountCharNone(s: string, ch: char)
    requires forall i :: 0 <= i < |s| ==> s[i] != ch
    ensures CountChar(s, ch) == 0
  {
    if |s| > 0 {
      CountCharNone(s[1..], ch);
    }
  }

  /** The joined text has exactly one comma fewer than it has parts, and neither starts nor ends with one. */
  lemma {:induction false} JoinShape(parts: seq<string>)
    requires |parts| >= 1
    requires forall i :: 0 <= i < |parts| ==> |parts[i]| >= 1 && NoComma(parts[i])
    ensures CountChar(Join(parts), ',') == |parts| - 1
    ensures |Join(parts)| >= 1
    ensures Join(parts)[0] != ',' && Join(parts)[|Join(parts)| - 1] != ','
  {
    CountCharNone(parts[0], ',');
    if |parts| > 1 {
      var rest := Join(parts[1..]);
      JoinShape(parts[1..]);
      CountCharAppend(parts[0] + ",", rest, ',');
      CountCharAppend(parts[0], ",", ',');
      assert CountChar(",", ',') == 1 by { assert ","[1..] == ""; }
      assert (parts[0] + "," + rest)[0] == parts[0][0];
    }
  }

  /** Every sample formatted to one decimal place, in index order. */
  function FormatAll(px: seq<int>): (parts: seq<string>)
  {
    seq(|px|, i requires 0 <= i < |px| => Decimal.Format(px[i]))
  }

  /** The `data` text of a frame. */
  function Encode(px: seq<int>): string {
    Join(FormatAll(px))
  }

  /** The builder loop's step: one more sample appends a comma and its text. */
  lemma EncodeSnoc(px: seq<int>, x: int)
    requires |px| >= 1
    ensures Encode(px + [x]) == Encode(px) + "," + Decimal.Format(x)
  {
    assert FormatAll(px + [x]) == FormatAll(px) + [Decimal.Format(x)];
    JoinSnoc(FormatAll(px), Decimal.Format(x));
  }

  /** The text the builder loop holds after its first i iterations: the first i samples, and a comma unless i is 0 or the last. */
  function Built(px: seq<int>, i: int): string
    requires 0 <= i <= |px|
  {
    Encode(px[..i]) + (if 0 < i < |px| then "," else "")
  }

  /** One iteration appends the sample's text and, except after the last sample, a comma; the finished text is the whole encoding. */
  lemma BuiltStep(px: seq<int>, i: int)
    requires 0 <= i < |px|
    ensures Built(px, i) + Decimal.Format(px[i]) + (if i < |px| - 1 then "," else "") == Built(px, i + 1)
    ensures Built(px, 0) == "" && Built(px, |px|) == Encode(px)
  {
    assert px[..i + 1] == px[..i] + [px[i]];
    assert px[..|px|] == px;
    if i > 0 {
      EncodeSnoc(px[..i], px[i]);
    } else {
      assert FormatAll([px[i]]) == [Decimal.Format(px[i])];
    }
  }

  /** Parses every part; fails if any part is not a one-decimal number. */
  function ParseAll(parts: seq<string>): (r: Option<seq<int>>)
    ensures r.Some? ==> |r.value| == |parts|
  {
    if |parts| == 0 then Some([])
    else
      match (Decimal.Parse(parts[0]), ParseAll(parts[1..]))
      case (Some(v), Some(vs)) => Some([v] + vs)
      case _ => None
  }

  /** Splits the `data` text on "," and parses each part. */
  function Decode(s: string): Option<seq<int>> {
    ParseAll(Split(s))
  }

  lemma {:induction false} ParseAllFormatAll(px: seq<int>)
    ensures ParseAll(FormatAll(px)) == Some(px)
  {
    if |px| > 0 {
      Decimal.FormatRoundTrip(px[0]);
      assert FormatAll(px)[1..] == FormatAll(px[1..]);
      ParseAllFormatAll(px[1..]);
      assert [px[0]] + px[1..] == px;
    }
  }

  /** Splitting the `data` text on commas and parsing recovers every sample exactly. */
  lemma DecodeEncode(px: seq<int>)
    requires |px| >= 1
    ensures Decode(Encode(px)) == Some(px)
  {
    SplitJoin(FormatAll(px));
    ParseAllFormatAll(px);
  }

  /** The `data` text of a frame of n samples has n - 1 commas and no leading or trailing comma. */
  lemma EncodeShape(px: seq<int>)
    requires |px| >= 1
    ensures CountChar(Encode(px), ',') == |px| - 1
    ensures Encode(px)[0] != ',' && Encode(px)[|Encode(px)| - 1] != ','
  {
    JoinShape(FormatAll(px));
  }
}
