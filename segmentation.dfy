/** Splitting filtered text into two-symbol pairs (playfair.py:43-109). A
    filler is placed after a symbol that would otherwise be paired with an
    equal symbol, and after a trailing single symbol; the positions of the
    fillers in the pair stream are recorded. */
module Segmentation {
  import opened Chars

  /** The pairs joined into one stream, `''.join(pairs)`. */
  function Concat(pairs: seq<string>): string {
    if pairs == [] then [] else Concat(pairs[..|pairs| - 1]) + pairs[|pairs| - 1]
  }

  lemma {:induction false} ConcatLength(pairs: seq<string>)
    requires forall p :: 0 <= p < |pairs| ==> |pairs[p]| == 2
    ensures |Concat(pairs)| == 2 * |pairs|
  {
    if pairs != [] {
      ConcatLength(pairs[..|pairs| - 1]);
    }
  }

  /** Pair `k` sits at positions 2k and 2k+1 of the stream. */
  lemma {:induction false} ConcatAt(pairs: seq<string>, k: nat)
    requires forall p :: 0 <= p < |pairs| ==> |pairs[p]| == 2
    requires k < |pairs|
    ensures 2 * k + 1 < |Concat(pairs)|
    ensures Concat(pairs)[2 * k] == pairs[k][0] && Concat(pairs)[2 * k + 1] == pairs[k][1]
  {
    var init := pairs[..|pairs| - 1];
    ConcatLength(init);
    ConcatLength(pairs);
    if k < |pairs| - 1 {
      ConcatAt(init, k);
    }
  }

  /** `s` without the characters whose index, counted from `base`, is listed
      in `ins`. */
  function Unpadded(s: string, ins: seq<nat>, base: nat): (r: string)
    ensures |r| <= |s|
  {
    if s == [] then []
    else (if base in ins then [] else [s[0]]) + Unpadded(s[1..], ins, base + 1)
  }

  lemma {:induction false} UnpaddedAppend(s: string, t: string, ins: seq<nat>, base: nat)
    ensures Unpadded(s + t, ins, base) == Unpadded(s, ins, base) + Unpadded(t, ins, base + |s|)
  {
    if s == [] {
      assert s + t == t;
    } else {
      assert (s + t)[1..] == s[1..] + t;
      UnpaddedAppend(s[1..], t, ins, base + 1);
    }
  }

  lemma UnpaddedSplit(s: string, t: string, ins: seq<nat>, n: nat)
    requires n == |s|
    ensures Unpadded(s + t, ins, 0) == Unpadded(s, ins, 0) + Unpadded(t, ins, n)
  {
    UnpaddedAppend(s, t, ins, 0);
  }

  /** Indices at or beyond the end of `s` do not affect it. */
  lemma {:induction false} UnpaddedExtend(s: string, ins: seq<nat>, k: nat, base: nat)
    requires base + |s| <= k
    ensures Unpadded(s, ins + [k], base) == Unpadded(s, ins, base)
  {
    if s != [] {
      UnpaddedExtend(s[1..], ins, k, base + 1);
    }
  }

  lemma ConcatSnoc(pairs: seq<string>, pair: string)
    ensures Concat(pairs + [pair]) == Concat(pairs) + pair
  {
    assert (pairs + [pair])[..|pairs|] == pairs;
  }

  /** Appending a pair whose second slot is recorded as a filler adds only
      its first symbol to the unpadded text. */
  lemma UnpaddedFilled(stream: string, ins: seq<nat>, a: char, f: char)
    requires |stream| !in ins
    ensures Unpadded(stream + [a, f], ins + [|stream| + 1], 0) == Unpadded(stream, ins, 0) + [a]
  {
    var n := |stream|;
    var ins' := ins + [n + 1];
    var t := [a, f];
    assert Unpadded(t, ins', n) == [a] by {
      assert n !in ins' && n + 1 in ins';
      assert t[1..] == [f] && [f][1..] == [];
      assert Unpadded([f], ins', n + 1) == [];
    }
    assert Unpadded(stream, ins', 0) == Unpadded(stream, ins, 0) by {
      UnpaddedExtend(stream, ins, n + 1, 0);
    }
    UnpaddedSplit(stream, t, ins', n);
  }

  /** Appending a pair with no recorded filler adds both its symbols. */
  lemma UnpaddedPlain(stream: string, ins: seq<nat>, pair: string)
    requires |pair| == 2 && |stream| !in ins && |stream| + 1 !in ins
    ensures Unpadded(stream + pair, ins, 0) == Unpadded(stream, ins, 0) + pair
  {
    var n := |stream|;
    UnpaddedAppend(stream, pair, ins, 0);
    assert pair[1..][1..] == [];
    assert Unpadded(pair[1..], ins, n + 1) == [pair[1]];
    assert Unpadded(pair, ins, n) == pair;
  }

  /** The filler placed after symbol `a`: sep1, or sep2 when `a` is sep1. */
  function Filler(a: char, sep1: char, sep2: char): (f: char)
    ensures sep1 != sep2 ==> f != a
  {
    if a == sep1 then sep2 else sep1
  }

  /** Pair `p` ends in the filler chosen for its first symbol, and the next
      pair, if any, starts with that same symbol again. */
  ghost predicate FilledPair(pairs: seq<string>, p: nat, sep1: char, sep2: char) {
    && p < |pairs| && |pairs[p]| == 2
    && pairs[p][1] == Filler(pairs[p][0], sep1, sep2)
    && (p + 1 == |pairs| || (|pairs[p + 1]| > 0 && pairs[p + 1][0] == pairs[p][0]))
  }

  /** What `process_plaintext_*` promises about its result for the
      filtered `text`:
      - every pair has two symbols, and two different ones when the
        fillers differ;
      - deleting the recorded positions from the stream gives `text` back;
      - the recorded positions are odd, strictly increasing and inside the
        stream, so each is the second slot of some pair;
      - a filler is the right one for its pair and stands only before a
        repeat of its pair's first symbol or at the very end. */
  ghost predicate ValidSegmentation(text: string, sep1: char, sep2: char,
                                    pairs: seq<string>, ins: seq<nat>)
  {
    && (forall p :: 0 <= p < |pairs| ==> |pairs[p]| == 2)
    && (sep1 != sep2 ==> forall p :: 0 <= p < |pairs| ==> pairs[p][0] != pairs[p][1])
    && Unpadded(Concat(pairs), ins, 0) == text
    && (forall q :: 0 <= q < |ins| ==>
          ins[q] % 2 == 1 && ins[q] < 2 * |pairs| && FilledPair(pairs, ins[q] / 2, sep1, sep2))
    && (forall q, q' :: 0 <= q < q' < |ins| ==> ins[q] < ins[q'])
    && |text| + |ins| == 2 * |pairs|
  }

  /** The state of the pairing loop after consuming `text[..i]`: besides a
      valid segmentation of that prefix, a pair just completed by a filler
      is followed by a repeat of its first symbol. */
  ghost predicate SegmentState(text: string, sep1: char, sep2: char, i: nat,
                               pairs: seq<string>, ins: seq<nat>)
  {
    && i <= |text|
    && ValidSegmentation(text[..i], sep1, sep2, pairs, ins)
    && |Concat(pairs)| == 2 * |pairs|
    && (i < |text| && |ins| > 0 && ins[|ins| - 1] == 2 * |pairs| - 1 ==>
          text[i] == pairs[|pairs| - 1][0])
    && (forall p, k :: 0 <= p < |pairs| && 0 <= k < 2 ==>
          pairs[p][k] in text || pairs[p][k] == sep1 || pairs[p][k] == sep2)
  }

  /** Recorded positions below 2m that are odd stay so, and stay increasing,
      when 2m+1 is recorded next; neither slot of pair m is recorded yet. */
  lemma InsertedSnoc(ins: seq<nat>, m: nat, ins': seq<nat>)
    requires forall q :: 0 <= q < |ins| ==> ins[q] % 2 == 1 && ins[q] < 2 * m
    requires forall q, q' :: 0 <= q < q' < |ins| ==> ins[q] < ins[q']
    requires ins' == ins + [2 * m + 1]
    ensures 2 * m !in ins && 2 * m + 1 !in ins
    ensures forall q, q' :: 0 <= q < q' < |ins'| ==> ins'[q] < ins'[q']
  {
    forall q | 0 <= q < |ins| ensures ins[q] != 2 * m && ins[q] != 2 * m + 1 {
      assert ins[q] % 2 == 1;
    }
  }

  /** Appending a pair keeps the filler conditions of the earlier pairs,
      provided a filled last pair is followed by a repeat of its symbol. */
  lemma FilledPairsSnoc(pairs: seq<string>, pair: string, ins: seq<nat>, sep1: char, sep2: char)
    requires forall q :: 0 <= q < |ins| ==>
      ins[q] % 2 == 1 && ins[q] < 2 * |pairs| && FilledPair(pairs, ins[q] / 2, sep1, sep2)
    requires forall q, q' :: 0 <= q < q' < |ins| ==> ins[q] < ins[q']
    requires |pairs| > 0 && |ins| > 0 && ins[|ins| - 1] == 2 * |pairs| - 1 ==>
      |pair| > 0 && |pairs[|pairs| - 1]| > 0 && pair[0] == pairs[|pairs| - 1][0]
    ensures forall q :: 0 <= q < |ins| ==>
      ins[q] < 2 * |pairs + [pair]| && FilledPair(pairs + [pair], ins[q] / 2, sep1, sep2)
  {
    var pairs' := pairs + [pair];
    forall q | 0 <= q < |ins|
      ensures FilledPair(pairs', ins[q] / 2, sep1, sep2)
    {
      var p := ins[q] / 2;
      assert pairs'[p] == pairs[p];
      if p + 1 < |pairs| {
        assert pairs'[p + 1] == pairs[p + 1];
      } else {
        var last := |ins| - 1;
        assert ins[last] % 2 == 1 && ins[last] < 2 * |pairs|;
        assert ins[last] <= ins[q] == 2 * |pairs| - 1;
        assert q == last;
        assert pairs'[p + 1] == pair;
      }
    }
  }

  /** One turn of the loop when the pair is completed by a filler. */
  lemma FilledStep(text: string, sep1: char, sep2: char, i: nat,
                   pairs: seq<string>, ins: seq<nat>)
    requires SegmentState(text, sep1, sep2, i, pairs, ins) && i < |text|
    requires i + 1 == |text| || text[i + 1] == text[i]
    ensures var pair := [text[i], Filler(text[i], sep1, sep2)];
      SegmentState(text, sep1, sep2, i + 1, pairs + [pair], ins + [2 * |pairs| + 1])
  {
    var a := text[i];
    var pair := [a, Filler(a, sep1, sep2)];
    var m := |pairs|;
    var pairs', ins' := pairs + [pair], ins + [2 * m + 1];
    InsertedSnoc(ins, m, ins');
    FilledPairsSnoc(pairs, pair, ins, sep1, sep2);
    FilledStream(text, sep1, sep2, i, pairs, ins);
    FilledPositions(pairs, ins, pair, sep1, sep2);
  }

  /** The stream after a filled pair, with the filler deleted, is the text
      one symbol further. */
  lemma FilledStream(text: string, sep1: char, sep2: char, i: nat, pairs: seq<string>, ins: seq<nat>)
    requires i < |text| && Unpadded(Concat(pairs), ins, 0) == text[..i]
    requires |Concat(pairs)| == 2 * |pairs| && 2 * |pairs| !in ins
    ensures var pair := [text[i], Filler(text[i], sep1, sep2)];
      Unpadded(Concat(pairs + [pair]), ins + [2 * |pairs| + 1], 0) == text[..i + 1]
  {
    var a := text[i];
    var pair := [a, Filler(a, sep1, sep2)];
    ConcatSnoc(pairs, pair);
    UnpaddedFilled(Concat(pairs), ins, a, pair[1]);
    assert text[..i + 1] == text[..i] + [a];
  }

  /** The recorded positions after a filled pair still each name a filled
      pair. */
  lemma FilledPositions(pairs: seq<string>, ins: seq<nat>, pair: string, sep1: char, sep2: char)
    requires forall q :: 0 <= q < |ins| ==>
      ins[q] % 2 == 1 && ins[q] < 2 * |pairs + [pair]| && FilledPair(pairs + [pair], ins[q] / 2, sep1, sep2)
    requires |pair| == 2 && pair[1] == Filler(pair[0], sep1, sep2)
    ensures var pairs', ins' := pairs + [pair], ins + [2 * |pairs| + 1];
      forall q :: 0 <= q < |ins'| ==>
        ins'[q] % 2 == 1 && ins'[q] < 2 * |pairs'| && FilledPair(pairs', ins'[q] / 2, sep1, sep2)
  {
    var pairs', ins' := pairs + [pair], ins + [2 * |pairs| + 1];
    assert FilledPair(pairs', |pairs|, sep1, sep2);
    forall q | 0 <= q < |ins'|
      ensures ins'[q] % 2 == 1 && ins'[q] < 2 * |pairs'| && FilledPair(pairs', ins'[q] / 2, sep1, sep2)
    {
      if q < |ins| {
        assert ins'[q] == ins[q];
      }
    }
  }

  /** One turn of the loop that pairs two different symbols. */
  lemma PlainStep(text: string, sep1: char, sep2: char, i: nat,
                  pairs: seq<string>, ins: seq<nat>)
    requires SegmentState(text, sep1, sep2, i, pairs, ins) && i + 1 < |text|
    requires text[i + 1] != text[i]
    ensures SegmentState(text, sep1, sep2, i + 2, pairs + [[text[i], text[i + 1]]], ins)
  {
    var pair := [text[i], text[i + 1]];
    var m := |pairs|;
    var pairs' := pairs + [pair];
    InsertedSnoc(ins, m, ins + [2 * m + 1]);
    FilledPairsSnoc(pairs, pair, ins, sep1, sep2);
    assert Concat(pairs') == Concat(pairs) + pair by {
      ConcatSnoc(pairs, pair);
    }
    assert Unpadded(Concat(pairs'), ins, 0) == text[..i + 2] by {
      UnpaddedPlain(Concat(pairs), ins, pair);
      assert text[..i + 2] == text[..i] + pair;
    }
    assert ValidSegmentation(text[..i + 2], sep1, sep2, pairs', ins);
  }

  /** The pairing loop of `process_plaintext_*` from position `i` on, with
      `pairs` and `ins` built so far: a pair of two different symbols is
      taken whole, otherwise the symbol is completed by its filler and the
      filler's stream position is recorded. */
  function PairFrom(text: string, sep1: char, sep2: char, i: nat,
                    pairs: seq<string>, ins: seq<nat>): (seq<string>, seq<nat>)
    decreases |text| - i
  {
    if i >= |text| then (pairs, ins)
    else if i + 1 < |text| && text[i] != text[i + 1] then
      PairFrom(text, sep1, sep2, i + 2, pairs + [[text[i], text[i + 1]]], ins)
    else
      PairFrom(text, sep1, sep2, i + 1, pairs + [[text[i], Filler(text[i], sep1, sep2)]],
               ins + [2 * |pairs| + 1])
  }

  /** The pairs and recorded filler positions for the filtered `text`. */
  function Pairing(text: string, sep1: char, sep2: char): (seq<string>, seq<nat>) {
    PairFrom(text, sep1, sep2, 0, [], [])
  }

  lemma {:induction false} PairFromValid(text: string, sep1: char, sep2: char, i: nat,
                                         pairs: seq<string>, ins: seq<nat>)
    requires SegmentState(text, sep1, sep2, i, pairs, ins)
    ensures var (ps, fs) := PairFrom(text, sep1, sep2, i, pairs, ins);
      ValidSegmentation(text, sep1, sep2, ps, fs)
    ensures var (ps, fs) := PairFrom(text, sep1, sep2, i, pairs, ins);
      forall p, k :: 0 <= p < |ps| && 0 <= k < 2 ==>
        ps[p][k] in text || ps[p][k] == sep1 || ps[p][k] == sep2
    decreases |text| - i
  {
    if i >= |text| {
      assert text[..i] == text;
    } else if i + 1 < |text| && text[i] != text[i + 1] {
      PlainStep(text, sep1, sep2, i, pairs, ins);
      PairFromValid(text, sep1, sep2, i + 2, pairs + [[text[i], text[i + 1]]], ins);
    } else {
      FilledStep(text, sep1, sep2, i, pairs, ins);
      PairFromValid(text, sep1, sep2, i + 1, pairs + [[text[i], Filler(text[i], sep1, sep2)]],
                    ins + [2 * |pairs| + 1]);
    }
  }

  /** The pairing satisfies every promise of `process_plaintext_*`, and its
      pairs hold only symbols of the text and the two fillers. */
  lemma PairingValid(text: string, sep1: char, sep2: char)
    ensures ValidSegmentation(text, sep1, sep2, Pairing(text, sep1, sep2).0, Pairing(text, sep1, sep2).1)
    ensures var ps := Pairing(text, sep1, sep2).0;
      forall p, k :: 0 <= p < |ps| && 0 <= k < 2 ==>
        ps[p][k] in text || ps[p][k] == sep1 || ps[p][k] == sep2
  {
    assert text[..0] == [];
    PairFromValid(text, sep1, sep2, 0, [], []);
  }

  /** The doubled letters of BALLOON are split by the filler X. */
  lemma BalloonExample()
    ensures Pairing("BALLOON", 'X', 'Y') == (["BA", "LX", "LO", "ON"], [3])
  {
    var t := "BALLOON";
    assert t[0] == 'B' && t[1] == 'A' && t[2] == 'L' && t[3] == 'L';
    assert t[4] == 'O' && t[5] == 'O' && t[6] == 'N' && |t| == 7;
    var p1, p2, p3, p4 := ['B', 'A'], ['L', 'X'], ['L', 'O'], ['O', 'N'];
    calc {
      Pairing(t, 'X', 'Y');
      PairFrom(t, 'X', 'Y', 0, [], []);
      { assert [] + [p1] == [p1]; }
      PairFrom(t, 'X', 'Y', 2, [p1], []);
      { assert [p1] + [['L', Filler('L', 'X', 'Y')]] == [p1, p2];
        assert [] + [2 * |[p1]| + 1] == [3]; }
      PairFrom(t, 'X', 'Y', 3, [p1, p2], [3]);
      { assert [p1, p2] + [p3] == [p1, p2, p3]; }
      PairFrom(t, 'X', 'Y', 5, [p1, p2, p3], [3]);
      { assert [p1, p2, p3] + [p4] == [p1, p2, p3, p4]; }
      PairFrom(t, 'X', 'Y', 7, [p1, p2, p3, p4], [3]);
      ([p1, p2, p3, p4], [3]);
    }
  }

  /** Text that already consists of pairs of two different symbols is paired
      back into those pairs, with no filler. */
  lemma {:induction false} PairFromDistinctPairs(qs: seq<string>, sep1: char, sep2: char, k: nat)
    requires forall p :: 0 <= p < |qs| ==> |qs[p]| == 2 && qs[p][0] != qs[p][1]
    requires k <= |qs|
    ensures PairFrom(Concat(qs), sep1, sep2, 2 * k, qs[..k], []) == (qs, [])
    decreases |qs| - k
  {
    ConcatLength(qs);
    if k < |qs| {
      ConcatAt(qs, k);
      assert qs[k] == [qs[k][0], qs[k][1]];
      assert qs[..k] + [qs[k]] == qs[..k + 1];
      PairFromDistinctPairs(qs, sep1, sep2, k + 1);
    } else {
      assert qs[..k] == qs;
    }
  }

  lemma PairingDistinctPairs(qs: seq<string>, sep1: char, sep2: char)
    requires forall p :: 0 <= p < |qs| ==> |qs[p]| == 2 && qs[p][0] != qs[p][1]
    ensures Pairing(Concat(qs), sep1, sep2) == (qs, [])
  {
    PairFromDistinctPairs(qs, sep1, sep2, 0);
  }

  /** The pairing loop shared by `process_plaintext_5x5` and
      `process_plaintext_6x6` (playfair.py:51-77 and 83-109), run on text
      that is already filtered. */
  method Segment(text: string, sep1: char, sep2: char) returns (pairs: seq<string>, ins: seq<nat>)
    ensures (pairs, ins) == Pairing(text, sep1, sep2)
  {
    pairs, ins := [], [];
    var i, charCount := 0, 0;
    while i < |text|
      invariant PairFrom(text, sep1, sep2, i, pairs, ins) == Pairing(text, sep1, sep2)
      invariant charCount == 2 * |pairs|
      decreases |text| - i
    {
      var a := text[i];
      if i + 1 < |text| {
        var b := text[i + 1];
        if a == b {
          pairs := pairs + [[a, Filler(a, sep1, sep2)]];
          ins := ins + [charCount + 1];
          i, charCount := i + 1, charCount + 2;
        } else {
          pairs := pairs + [[a, b]];
          i, charCount := i + 2, charCount + 2;
        }
      } else {
        pairs := pairs + [[a, Filler(a, sep1, sep2)]];
        ins := ins + [charCount + 1];
        i, charCount := i + 1, charCount + 2;
      }
    }
  }

  /** `process_plaintext_5x5`: keep the letters, upper-cased with J folded
      into I, then pair them. */
  method ProcessPlaintext5x5(text: string, sep1: char, sep2: char) returns (pairs: seq<string>, ins: seq<nat>)
    requires IsAscii(text)
    ensures (pairs, ins) == Pairing(Normalize(Five, text), sep1, sep2)
  {
    var filtered: string := [];
    for i := 0 to |text|
      invariant filtered + Normalize(Five, text[i..]) == Normalize(Five, text)
    {
      assert Normalize(Five, text[i..]) ==
        (if IsAsciiLetter(text[i]) then [Canon(Five, text[i])] else []) + Normalize(Five, text[i + 1..])
      by {
        assert text[i..][1..] == text[i + 1..];
      }
      if IsAsciiLetter(text[i]) {
        filtered := filtered + [Canon(Five, text[i])];
      }
    }
    assert filtered == Normalize(Five, text) by {
      assert text[|text|..] == [];
    }
    pairs, ins := Segment(filtered, sep1, sep2);
  }

  /** `process_plaintext_6x6`: keep the letters and digits, upper-cased,
      then pair them. */
  method ProcessPlaintext6x6(text: string, sep1: char, sep2: char) returns (pairs: seq<string>, ins: seq<nat>)
    requires IsAscii(text)
    ensures (pairs, ins) == Pairing(Normalize(Six, text), sep1, sep2)
  {
    var filtered := Normalize(Six, text);
    pairs, ins := Segment(filtered, sep1, sep2);
  }
}
