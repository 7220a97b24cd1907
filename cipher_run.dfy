/** The Playfair run of the application window (main_ui.py:788-856): the
    checks on the matrix, the separators and the input, the substitution of
    every pair, and the pass that writes the cipher stream back over the
    input text, keeping the characters outside the alphabet where they
    stood and the case of the letters it replaces. */
module CipherRun {
  import opened Chars
  import opened Matrix
  import opened Substitution
  import opened Segmentation

  /** Where the input comes from: the content and path of the chosen file,
      or the text area. */
  datatype Input = FromFile(content: string, path: string) | Typed(text: string)

  function InputText(input: Input): string {
    match input
    case FromFile(content, _) => content
    case Typed(text) => text
  }

  /** The warnings the run can stop with, in the order they are checked. */
  datatype Warning = NoMatrix | MissingSeparator | SameSeparators | NoFile | NoText

  /** A warning, or the pairs, the recorded filler positions, the processed
      pairs and the reconstructed result. */
  datatype Outcome =
    | Warned(warning: Warning)
    | Shown(pairs: seq<string>, inserted: seq<nat>, processed: seq<string>, result: string)

  /** What a separator field can hold: at most one upper-case letter. */
  predicate IsSeparator(s: string) {
    |s| <= 1 && forall k :: 0 <= k < |s| ==> 'A' <= s[k] <= 'Z'
  }

  /** The matrix the window holds: none yet, or the full matrix of the
      chosen size. */
  predicate MatrixFor(size: Size, m: Grid) {
    m == [] || FullMatrix(size, m)
  }

  /** The characters the cipher stream is made of: admitted and not
      lower-case. */
  predicate Emittable(size: Size, c: char) {
    Admit(size, c) && !IsLower(c)
  }

  /** The processed pairs: each pair of length two substituted, any other
      skipped. */
  function SubstituteAll(m: Grid, pairs: seq<string>, d: Direction): seq<string>
    requires IsSquare(m)
  {
    if pairs == [] then []
    else
      var last := pairs[|pairs| - 1];
      SubstituteAll(m, pairs[..|pairs| - 1], d) +
      (if |last| == 2 then [SubstitutePair(m, last[0], last[1], d)] else [])
  }

  /** When every pair has length two, pair p is processed into the
      substitution of pair p. */
  lemma {:induction false} SubstituteAllPairs(m: Grid, pairs: seq<string>, d: Direction)
    requires IsSquare(m)
    requires forall p :: 0 <= p < |pairs| ==> |pairs[p]| == 2
    ensures |SubstituteAll(m, pairs, d)| == |pairs|
    ensures forall p :: 0 <= p < |pairs| ==>
      SubstituteAll(m, pairs, d)[p] == SubstitutePair(m, pairs[p][0], pairs[p][1], d)
  {
    if pairs != [] {
      var init, last := pairs[..|pairs| - 1], pairs[|pairs| - 1];
      SubstituteAllPairs(m, init, d);
      var r := SubstituteAll(m, init, d) + [SubstitutePair(m, last[0], last[1], d)];
      assert SubstituteAll(m, pairs, d) == r;
      forall p | 0 <= p < |pairs|
        ensures r[p] == SubstitutePair(m, pairs[p][0], pairs[p][1], d)
      {
        if p < |init| {
          assert init[p] == pairs[p];
        }
      }
    }
  }

  /** The loop over the pairs (main_ui.py:825-831). */
  method SubstitutePairs(m: Grid, pairs: seq<string>, d: Direction) returns (processed: seq<string>)
    requires IsSquare(m)
    ensures processed == SubstituteAll(m, pairs, d)
  {
    processed := [];
    for i := 0 to |pairs|
      invariant processed == SubstituteAll(m, pairs[..i], d)
    {
      var pair := pairs[i];
      assert pairs[..i + 1][..i] == pairs[..i];
      if |pair| == 2 {
        if d == Encrypt {
          processed := processed + [EncryptPair(m, pair[0], pair[1])];
        } else {
          processed := processed + [DecryptPair(m, pair[0], pair[1])];
        }
      }
    }
    assert pairs[..|pairs|] == pairs;
  }

  /** A substituted pair holds only matrix cells and the pair's own
      symbols, so a class of characters holding both stays closed. */
  lemma SubstituteKeeps(m: Grid, a: char, b: char, d: Direction, P: char -> bool)
    requires IsSquare(m)
    requires forall i, j :: 0 <= i < |m| && 0 <= j < |m| ==> P(m[i][j])
    requires P(a) && P(b)
    ensures var r := SubstitutePair(m, a, b, d); P(r[0]) && P(r[1])
  {
  }

  lemma {:induction false} SubstituteAllKeeps(m: Grid, pairs: seq<string>, d: Direction, P: char -> bool)
    requires IsSquare(m)
    requires forall i, j :: 0 <= i < |m| && 0 <= j < |m| ==> P(m[i][j])
    requires forall p, k :: 0 <= p < |pairs| && 0 <= k < |pairs[p]| ==> P(pairs[p][k])
    ensures forall p, k :: 0 <= p < |SubstituteAll(m, pairs, d)| && 0 <= k < |SubstituteAll(m, pairs, d)[p]| ==>
      P(SubstituteAll(m, pairs, d)[p][k])
  {
    if pairs != [] {
      var init, last := pairs[..|pairs| - 1], pairs[|pairs| - 1];
      var r, ri := SubstituteAll(m, pairs, d), SubstituteAll(m, init, d);
      SubstituteAllKeeps(m, init, d, P);
      if |last| == 2 {
        var e := SubstitutePair(m, last[0], last[1], d);
        SubstituteKeeps(m, last[0], last[1], d, P);
        assert r == ri + [e];
        forall p, k | 0 <= p < |r| && 0 <= k < |r[p]| ensures P(r[p][k]) {
          if p < |ri| {
            assert r[p] == ri[p];
          } else {
            assert r[p] == e;
          }
        }
      } else {
        assert r == ri;
      }
    }
  }

  lemma {:induction false} ConcatKeeps(pairs: seq<string>, P: char -> bool)
    requires forall p, k :: 0 <= p < |pairs| && 0 <= k < |pairs[p]| ==> P(pairs[p][k])
    ensures forall k :: 0 <= k < |Concat(pairs)| ==> P(Concat(pairs)[k])
  {
    if pairs != [] {
      ConcatKeeps(pairs[..|pairs| - 1], P);
    }
  }

  /** `c.lower() if char.islower() else c`. */
  function CaseAs(orig: char, sym: char): char {
    if IsLower(orig) then Lower(sym) else sym
  }

  /** The first index from `k` on that is past the end of the stream or
      not a recorded filler position: where `while idx in inserted_indices
      and idx < len(output_stream)` stops. */
  function Skip(ins: seq<nat>, k: nat, n: nat): (j: nat)
    requires k <= n
    ensures k <= j <= n
    ensures forall t :: k <= t < j ==> t in ins
    ensures j < n ==> j !in ins
    decreases n - k
  {
    if k < n && k in ins then Skip(ins, k + 1, n) else k
  }

  /** The reconstruction of main_ui.py:836-854 over the input `text`, with
      the stream read from `idx`: a character outside the alphabet is kept;
      an admitted one takes the next stream symbol in its own case, followed
      by the symbols at recorded filler positions; once the input is done,
      what is left of the stream is appended. */
  function Rebuild(size: Size, text: string, stream: string, ins: seq<nat>, idx: nat): string
    requires idx <= |stream|
    decreases |text|
  {
    if text == [] then stream[idx..]
    else if Admit(size, text[0]) then
      if idx < |stream| then
        var j := Skip(ins, idx + 1, |stream|);
        [CaseAs(text[0], stream[idx])] + stream[idx + 1..j] + Rebuild(size, text[1..], stream, ins, j)
      else Rebuild(size, text[1..], stream, ins, idx)
    else [text[0]] + Rebuild(size, text[1..], stream, ins, idx)
  }

  /** One input character of the reconstruction, read at position `i`. */
  lemma RebuildStep(size: Size, text: string, i: nat, stream: string, ins: seq<nat>, idx: nat)
    requires i < |text| && idx <= |stream|
    ensures !Admit(size, text[i]) ==>
      Rebuild(size, text[i..], stream, ins, idx) == [text[i]] + Rebuild(size, text[i + 1..], stream, ins, idx)
    ensures Admit(size, text[i]) && idx == |stream| ==>
      Rebuild(size, text[i..], stream, ins, idx) == Rebuild(size, text[i + 1..], stream, ins, idx)
    ensures Admit(size, text[i]) && idx < |stream| ==>
      var j := Skip(ins, idx + 1, |stream|);
      Rebuild(size, text[i..], stream, ins, idx) ==
        [CaseAs(text[i], stream[idx])] + stream[idx + 1..j] + Rebuild(size, text[i + 1..], stream, ins, j)
  {
    assert text[i..][1..] == text[i + 1..];
  }

  /** How many input characters the stream symbols from `idx` up to `p`
      stand for: those not at recorded filler positions. */
  function Rank(stream: string, ins: seq<nat>, idx: nat, p: nat): nat
    requires idx <= p <= |stream|
  {
    |Unpadded(stream[idx..p], ins, idx)|
  }

  /** A run of recorded filler positions stands for no input character. */
  lemma {:induction false} UnpaddedAllIns(s: string, ins: seq<nat>, base: nat)
    requires forall t :: base <= t < base + |s| ==> t in ins
    ensures Unpadded(s, ins, base) == []
  {
    if s != [] {
      UnpaddedAllIns(s[1..], ins, base + 1);
    }
  }

  /** The symbol at `idx` and the filler symbols after it stand for one
      input character. */
  lemma RankStep(stream: string, ins: seq<nat>, idx: nat, j: nat, p: nat)
    requires idx < |stream| && idx !in ins
    requires j == Skip(ins, idx + 1, |stream|) && j <= p <= |stream|
    ensures Rank(stream, ins, idx, p) == 1 + Rank(stream, ins, j, p)
  {
    var a, b := stream[idx..j], stream[j..p];
    assert stream[idx..p] == a + b;
    assert idx + |a| == j;
    UnpaddedAppend(a, b, ins, idx);
    UnpaddedHead(stream, ins, idx, j);
  }

  lemma UnpaddedHead(stream: string, ins: seq<nat>, idx: nat, j: nat)
    requires idx < |stream| && idx !in ins
    requires j == Skip(ins, idx + 1, |stream|)
    ensures |Unpadded(stream[idx..j], ins, idx)| == 1
  {
    var s := stream[idx..j];
    assert s[1..] == stream[idx + 1..j];
    UnpaddedAllIns(stream[idx + 1..j], ins, idx + 1);
  }

  /** Case is kept position by position over a text of admitted characters:
      the symbol at stream position `p` is written in the case of the input
      character it stands for, unless `p` is a recorded filler position or
      the input is used up, where it is written as it is. */
  lemma {:induction false} RebuildCaseAll(size: Size, text: string, stream: string, ins: seq<nat>, idx: nat)
    requires idx <= |stream| && (idx < |stream| ==> idx !in ins)
    requires forall k :: 0 <= k < |text| ==> Admit(size, text[k])
    ensures |Rebuild(size, text, stream, ins, idx)| == |stream| - idx
    ensures forall p :: idx <= p < |stream| ==>
      Rebuild(size, text, stream, ins, idx)[p - idx] ==
        if p !in ins && Rank(stream, ins, idx, p) < |text|
        then CaseAs(text[Rank(stream, ins, idx, p)], stream[p])
        else stream[p]
    decreases |text|
  {
    var r := Rebuild(size, text, stream, ins, idx);
    if text == [] {
    } else if idx == |stream| {
      RebuildCaseAll(size, text[1..], stream, ins, idx);
    } else {
      var j := Skip(ins, idx + 1, |stream|);
      var rest := Rebuild(size, text[1..], stream, ins, j);
      assert r == [CaseAs(text[0], stream[idx])] + stream[idx + 1..j] + rest;
      RebuildCaseAll(size, text[1..], stream, ins, j);
      forall p | idx <= p < |stream|
        ensures r[p - idx] ==
          if p !in ins && Rank(stream, ins, idx, p) < |text|
          then CaseAs(text[Rank(stream, ins, idx, p)], stream[p])
          else stream[p]
      {
        if p == idx {
          assert stream[idx..p] == [];
        } else if p >= j {
          RankStep(stream, ins, idx, j, p);
          assert r[p - idx] == rest[p - j];
          if Rank(stream, ins, j, p) < |text| - 1 {
            assert text[1..][Rank(stream, ins, j, p)] == text[1 + Rank(stream, ins, j, p)];
          }
        }
      }
    }
  }

  /** The characters outside the alphabet do not affect which symbol each
      admitted character takes: deleting them from the result gives the
      reconstruction over the admitted characters alone. */
  lemma {:induction false} LettersRebuild(size: Size, text: string, stream: string, ins: seq<nat>, idx: nat)
    requires idx <= |stream|
    requires forall k :: idx <= k < |stream| ==> Emittable(size, stream[k])
    ensures Letters(size, Rebuild(size, text, stream, ins, idx)) ==
      Rebuild(size, Letters(size, text), stream, ins, idx)
    decreases |text|
  {
    if text == [] {
      EmittableTail(size, stream, idx);
    } else if Admit(size, text[0]) && idx < |stream| {
      var j := Skip(ins, idx + 1, |stream|);
      LettersRebuild(size, text[1..], stream, ins, j);
      LettersRebuildTaken(size, text, stream, ins, idx);
    } else if Admit(size, text[0]) {
      LettersRebuild(size, text[1..], stream, ins, idx);
      assert Letters(size, text) == [text[0]] + Letters(size, text[1..]);
    } else {
      var rest := Rebuild(size, text[1..], stream, ins, idx);
      LettersRebuild(size, text[1..], stream, ins, idx);
      assert Rebuild(size, text, stream, ins, idx) == [text[0]] + rest;
      LettersAppend(size, [text[0]], rest);
      assert Letters(size, [text[0]]) == [];
      assert [] + Letters(size, rest) == Letters(size, rest);
      assert Letters(size, text) == Letters(size, text[1..]);
    }
  }

  /** The step of `LettersRebuild` for an admitted character that takes a
      stream symbol. */
  lemma LettersRebuildTaken(size: Size, text: string, stream: string, ins: seq<nat>, idx: nat)
    requires text != [] && Admit(size, text[0]) && idx < |stream|
    requires forall k :: idx <= k < |stream| ==> Emittable(size, stream[k])
    requires var j := Skip(ins, idx + 1, |stream|);
      Letters(size, Rebuild(size, text[1..], stream, ins, j)) ==
        Rebuild(size, Letters(size, text[1..]), stream, ins, j)
    ensures Letters(size, Rebuild(size, text, stream, ins, idx)) ==
      Rebuild(size, Letters(size, text), stream, ins, idx)
  {
    var j := Skip(ins, idx + 1, |stream|);
    var head := [CaseAs(text[0], stream[idx])] + stream[idx + 1..j];
    var rest := Rebuild(size, text[1..], stream, ins, j);
    assert Rebuild(size, text, stream, ins, idx) == head + rest;
    TakenHead(size, text[0], stream, idx, j);
    LettersAppend(size, head, rest);
    var lt := Letters(size, text);
    assert lt == [text[0]] + Letters(size, text[1..]);
    assert lt[1..] == Letters(size, text[1..]);
    assert Rebuild(size, lt, stream, ins, idx) == head + Rebuild(size, lt[1..], stream, ins, j);
  }

  /** The reconstruction loops (main_ui.py:836-854). */
  method Reconstruct(size: Size, text: string, stream: string, ins: seq<nat>) returns (result: string)
    ensures result == Rebuild(size, text, stream, ins, 0)
  {
    result := [];
    var idx := 0;
    ghost var goal := Rebuild(size, text, stream, ins, 0);
    for i := 0 to |text|
      invariant idx <= |stream|
      invariant result + Rebuild(size, text[i..], stream, ins, idx) == goal
    {
      var c := text[i];
      ghost var before, idx0 := result, idx;
      var isValid := if size == Five then IsAsciiLetter(c) else IsAsciiAlnum(c);
      assert isValid == Admit(size, c);
      if isValid {
        if idx < |stream| {
          var s := stream[idx];
          result := result + [if IsLower(c) then Lower(s) else s];
          idx := idx + 1;
          ghost var head := result;
          while idx in ins && idx < |stream|
            invariant idx0 < idx <= |stream|
            invariant Skip(ins, idx, |stream|) == Skip(ins, idx0 + 1, |stream|)
            invariant result == head + stream[idx0 + 1..idx]
            decreases |stream| - idx
          {
            result := result + [stream[idx]];
            idx := idx + 1;
          }
          TakenStep(size, text, i, stream, ins, idx0, idx, before, result);
        } else {
          RebuildStep(size, text, i, stream, ins, idx);
        }
      } else {
        result := result + [c];
        RebuildStep(size, text, i, stream, ins, idx);
        AppendAssoc(before, [c], Rebuild(size, text[i + 1..], stream, ins, idx));
      }
    }
    assert text[|text|..] == [];
    while idx < |stream|
      invariant idx <= |stream|
      invariant result + stream[idx..] == goal
      decreases |stream| - idx
    {
      assert stream[idx..] == [stream[idx]] + stream[idx + 1..];
      result := result + [stream[idx]];
      idx := idx + 1;
    }
  }

  /** The outer loop invariant is kept by an admitted character that took
      the stream symbol at `idx0` and the filler symbols after it. */
  lemma TakenStep(size: Size, text: string, i: nat, stream: string, ins: seq<nat>,
                  idx0: nat, idx: nat, before: string, result: string)
    requires i < |text| && Admit(size, text[i]) && idx0 < |stream|
    requires idx == Skip(ins, idx0 + 1, |stream|)
    requires result == (before + [CaseAs(text[i], stream[idx0])]) + stream[idx0 + 1..idx]
    ensures result + Rebuild(size, text[i + 1..], stream, ins, idx) ==
      before + Rebuild(size, text[i..], stream, ins, idx0)
  {
    RebuildStep(size, text, i, stream, ins, idx0);
    AppendAssoc(before, [CaseAs(text[i], stream[idx0])] + stream[idx0 + 1..idx],
                Rebuild(size, text[i + 1..], stream, ins, idx));
  }

  lemma AppendAssoc(a: string, b: string, c: string)
    ensures (a + b) + c == a + (b + c)
  {
  }

  /** Every stream symbol from `idx` on is emitted once and every character
      outside the alphabet is kept, so the length adds up. */
  lemma {:induction false} RebuildLength(size: Size, text: string, stream: string, ins: seq<nat>, idx: nat)
    requires idx <= |stream|
    ensures |Rebuild(size, text, stream, ins, idx)| == |PassThrough(size, text)| + |stream| - idx
    decreases |text|
  {
    if text != [] {
      if Admit(size, text[0]) && idx < |stream| {
        RebuildLength(size, text[1..], stream, ins, Skip(ins, idx + 1, |stream|));
      } else {
        RebuildLength(size, text[1..], stream, ins, idx);
      }
    }
  }

  /** The characters outside the alphabet come out unchanged and in their
      order, provided the stream holds only admitted characters. */
  lemma {:induction false} RebuildPassThrough(size: Size, text: string, stream: string, ins: seq<nat>, idx: nat)
    requires idx <= |stream|
    requires forall k :: idx <= k < |stream| ==> Emittable(size, stream[k])
    ensures PassThrough(size, Rebuild(size, text, stream, ins, idx)) == PassThrough(size, text)
    decreases |text|
  {
    if text == [] {
      FilterAdmitted(size, stream[idx..]);
    } else if Admit(size, text[0]) && idx < |stream| {
      RebuildPassThrough(size, text[1..], stream, ins, Skip(ins, idx + 1, |stream|));
      PassThroughTaken(size, text, stream, ins, idx);
    } else if Admit(size, text[0]) {
      RebuildPassThrough(size, text[1..], stream, ins, idx);
    } else {
      RebuildPassThrough(size, text[1..], stream, ins, idx);
      PassThroughKept(size, text, stream, ins, idx);
    }
  }

  /** The step of `RebuildPassThrough` for an admitted character that takes
      a stream symbol. */
  lemma PassThroughTaken(size: Size, text: string, stream: string, ins: seq<nat>, idx: nat)
    requires text != [] && Admit(size, text[0]) && idx < |stream|
    requires forall k :: idx <= k < |stream| ==> Emittable(size, stream[k])
    requires var j := Skip(ins, idx + 1, |stream|);
      PassThrough(size, Rebuild(size, text[1..], stream, ins, j)) == PassThrough(size, text[1..])
    ensures PassThrough(size, Rebuild(size, text, stream, ins, idx)) == PassThrough(size, text)
  {
    var j := Skip(ins, idx + 1, |stream|);
    var head := [CaseAs(text[0], stream[idx])] + stream[idx + 1..j];
    var rest := Rebuild(size, text[1..], stream, ins, j);
    assert Rebuild(size, text, stream, ins, idx) == head + rest;
    TakenHead(size, text[0], stream, idx, j);
    PassThroughAppend(size, head, rest);
    assert PassThrough(size, text) == PassThrough(size, text[1..]);
  }

  /** The step of `RebuildPassThrough` for a character outside the
      alphabet. */
  lemma PassThroughKept(size: Size, text: string, stream: string, ins: seq<nat>, idx: nat)
    requires text != [] && !Admit(size, text[0]) && idx <= |stream|
    requires PassThrough(size, Rebuild(size, text[1..], stream, ins, idx)) == PassThrough(size, text[1..])
    ensures PassThrough(size, Rebuild(size, text, stream, ins, idx)) == PassThrough(size, text)
  {
    var rest := Rebuild(size, text[1..], stream, ins, idx);
    assert Rebuild(size, text, stream, ins, idx) == [text[0]] + rest;
    PassThroughAppend(size, [text[0]], rest);
    assert PassThrough(size, [text[0]]) == [text[0]];
  }

  /** The string upper-cased character by character. */
  function UpperAll(s: string): (r: string)
    ensures |r| == |s| && forall k :: 0 <= k < |s| ==> r[k] == Upper(s[k])
  {
    seq(|s|, k requires 0 <= k < |s| => Upper(s[k]))
  }

  lemma UpperAllAppend(a: string, b: string)
    ensures UpperAll(a + b) == UpperAll(a) + UpperAll(b)
  {
  }

  /** Deleting the kept characters from the result and upper-casing gives
      the stream from `idx` on: each stream symbol is emitted once, in
      order. */
  lemma {:induction false} RebuildLetters(size: Size, text: string, stream: string, ins: seq<nat>, idx: nat)
    requires idx <= |stream|
    requires forall k :: idx <= k < |stream| ==> Emittable(size, stream[k])
    ensures UpperAll(Letters(size, Rebuild(size, text, stream, ins, idx))) == stream[idx..]
    decreases |text|
  {
    if text == [] {
      EmittableTail(size, stream, idx);
    } else if Admit(size, text[0]) && idx < |stream| {
      var j := Skip(ins, idx + 1, |stream|);
      RebuildLetters(size, text[1..], stream, ins, j);
      LettersTaken(size, text, stream, ins, idx);
    } else if Admit(size, text[0]) {
      RebuildLetters(size, text[1..], stream, ins, idx);
    } else {
      var rest := Rebuild(size, text[1..], stream, ins, idx);
      RebuildLetters(size, text[1..], stream, ins, idx);
      assert Rebuild(size, text, stream, ins, idx) == [text[0]] + rest;
      LettersAppend(size, [text[0]], rest);
      assert Letters(size, [text[0]]) == [];
      assert [] + Letters(size, rest) == Letters(size, rest);
    }
  }

  /** The unread end of a stream of emittable symbols is kept whole and
      is its own upper case. */
  lemma EmittableTail(size: Size, stream: string, idx: nat)
    requires idx <= |stream|
    requires forall k :: idx <= k < |stream| ==> Emittable(size, stream[k])
    ensures Letters(size, stream[idx..]) == stream[idx..]
    ensures UpperAll(stream[idx..]) == stream[idx..]
  {
    FilterAdmitted(size, stream[idx..]);
  }

  /** The step of `RebuildLetters` for an admitted character that takes a
      stream symbol. */
  lemma LettersTaken(size: Size, text: string, stream: string, ins: seq<nat>, idx: nat)
    requires text != [] && Admit(size, text[0]) && idx < |stream|
    requires forall k :: idx <= k < |stream| ==> Emittable(size, stream[k])
    requires var j := Skip(ins, idx + 1, |stream|);
      UpperAll(Letters(size, Rebuild(size, text[1..], stream, ins, j))) == stream[j..]
    ensures UpperAll(Letters(size, Rebuild(size, text, stream, ins, idx))) == stream[idx..]
  {
    var j := Skip(ins, idx + 1, |stream|);
    var head := [CaseAs(text[0], stream[idx])] + stream[idx + 1..j];
    var rest := Rebuild(size, text[1..], stream, ins, j);
    assert Rebuild(size, text, stream, ins, idx) == head + rest;
    TakenHead(size, text[0], stream, idx, j);
    LettersAppend(size, head, rest);
    UpperAllSplit(head, Letters(size, rest), stream, idx, j);
  }

  lemma UpperAllSplit(head: string, rest: string, stream: string, idx: nat, j: nat)
    requires idx <= j <= |stream|
    requires UpperAll(head) == stream[idx..j] && UpperAll(rest) == stream[j..]
    ensures UpperAll(head + rest) == stream[idx..]
  {
    UpperAllAppend(head, rest);
    assert stream[idx..] == stream[idx..j] + stream[j..];
  }

  /** What an admitted character and the filler symbols after it emit is
      admitted throughout and upper-cases back to the stream symbols. */
  lemma TakenHead(size: Size, t: char, stream: string, idx: nat, j: nat)
    requires idx < j <= |stream|
    requires forall k :: idx <= k < |stream| ==> Emittable(size, stream[k])
    ensures var head := [CaseAs(t, stream[idx])] + stream[idx + 1..j];
      Letters(size, head) == head && UpperAll(head) == stream[idx..j]
  {
    var head := [CaseAs(t, stream[idx])] + stream[idx + 1..j];
    forall k | 0 <= k < |head|
      ensures Admit(size, head[k]) && Upper(head[k]) == stream[idx + k]
    {
      if k > 0 {
        assert head[k] == stream[idx + k];
      }
    }
    FilterAdmitted(size, head);
  }

  /** The stream the run writes back: the processed pairs joined. */
  function CipherStream(size: Size, m: Grid, sep1: char, sep2: char, text: string, d: Direction): string
    requires IsSquare(m)
  {
    Concat(SubstituteAll(m, Pairing(Normalize(size, text), sep1, sep2).0, d))
  }

  /** The result the run shows for `text`. */
  function Cipher(size: Size, m: Grid, sep1: char, sep2: char, text: string, d: Direction): string
    requires IsSquare(m)
  {
    var ins := Pairing(Normalize(size, text), sep1, sep2).1;
    Rebuild(size, text, CipherStream(size, m, sep1, sep2, text, d), ins, 0)
  }

  /** The cipher stream holds only characters of a class that holds every
      symbol of the size, every cell of the matrix and both fillers. */
  lemma StreamKeeps(size: Size, m: Grid, sep1: char, sep2: char, text: string, d: Direction,
                    P: char -> bool)
    requires IsSquare(m)
    requires forall i, j :: 0 <= i < |m| && 0 <= j < |m| ==> P(m[i][j])
    requires forall c :: IsSymbol(size, c) ==> P(c)
    requires P(sep1) && P(sep2)
    ensures var s := CipherStream(size, m, sep1, sep2, text, d);
      forall k :: 0 <= k < |s| ==> P(s[k])
  {
    var filtered := Normalize(size, text);
    var pairs := Pairing(filtered, sep1, sep2).0;
    NormalizeSymbols(size, text);
    PairingValid(filtered, sep1, sep2);
    forall p, k | 0 <= p < |pairs| && 0 <= k < |pairs[p]| ensures P(pairs[p][k]) {
      if pairs[p][k] in filtered {
        var t :| 0 <= t < |filtered| && filtered[t] == pairs[p][k];
      }
    }
    SubstituteAllKeeps(m, pairs, d, P);
    ConcatKeeps(SubstituteAll(m, pairs, d), P);
  }

  /** With a full matrix and upper-case fillers the cipher stream is
      emittable. */
  lemma StreamEmittable(size: Size, m: Grid, sep1: char, sep2: char, text: string, d: Direction)
    requires FullMatrix(size, m)
    requires 'A' <= sep1 <= 'Z' && 'A' <= sep2 <= 'Z'
    ensures var s := CipherStream(size, m, sep1, sep2, text, d);
      forall k :: 0 <= k < |s| ==> Emittable(size, s[k])
  {
    StreamKeeps(size, m, sep1, sep2, text, d, c => Emittable(size, c));
  }

  /** The properties of the shown result: the kept characters in place and
      order, the stream emitted once and in order, and one more character
      than the input for every recorded filler. */
  lemma CipherFacts(size: Size, m: Grid, sep1: char, sep2: char, text: string, d: Direction)
    requires FullMatrix(size, m)
    requires 'A' <= sep1 <= 'Z' && 'A' <= sep2 <= 'Z'
    ensures var r := Cipher(size, m, sep1, sep2, text, d);
      PassThrough(size, r) == PassThrough(size, text) &&
      UpperAll(Letters(size, r)) == CipherStream(size, m, sep1, sep2, text, d) &&
      |r| == |text| + |Pairing(Normalize(size, text), sep1, sep2).1|
  {
    var filtered := Normalize(size, text);
    var (pairs, ins) := Pairing(filtered, sep1, sep2);
    var stream := CipherStream(size, m, sep1, sep2, text, d);
    StreamEmittable(size, m, sep1, sep2, text, d);
    RebuildPassThrough(size, text, stream, ins, 0);
    RebuildLetters(size, text, stream, ins, 0);
    RebuildLength(size, text, stream, ins, 0);
    PairingValid(filtered, sep1, sep2);
    NormalizeSymbols(size, text);
    SubstituteAllPairs(m, pairs, d);
    ConcatLength(SubstituteAll(m, pairs, d));
  }

  /** The case of the shown result, position by position among its
      admitted characters: a cipher symbol takes the case of the input
      letter it stands for, and a symbol at a recorded filler position, or
      one left over past the input, is written as it is. */
  lemma CipherCase(size: Size, m: Grid, sep1: char, sep2: char, text: string, d: Direction)
    requires FullMatrix(size, m)
    requires 'A' <= sep1 <= 'Z' && 'A' <= sep2 <= 'Z'
    ensures var r, s := Letters(size, Cipher(size, m, sep1, sep2, text, d)), CipherStream(size, m, sep1, sep2, text, d);
      var ins, lt := Pairing(Normalize(size, text), sep1, sep2).1, Letters(size, text);
      |r| == |s| &&
      forall p :: 0 <= p < |s| ==>
        r[p] == if p !in ins && Rank(s, ins, 0, p) < |lt|
                then CaseAs(lt[Rank(s, ins, 0, p)], s[p])
                else s[p]
  {
    var s := CipherStream(size, m, sep1, sep2, text, d);
    var ins := Pairing(Normalize(size, text), sep1, sep2).1;
    StreamEmittable(size, m, sep1, sep2, text, d);
    PairingValid(Normalize(size, text), sep1, sep2);
    assert 0 !in ins by {
      forall q | 0 <= q < |ins| ensures ins[q] != 0 {
        assert ins[q] % 2 == 1;
      }
    }
    LettersRebuild(size, text, s, ins, 0);
    RebuildCaseAll(size, Letters(size, text), s, ins, 0);
  }

  /** `playfair_run_cipher`: the checks in their order, then the pairing of
      the chosen size, the substitution of every pair in the chosen
      direction and the reconstruction. */
  method RunCipher(size: Size, m: Grid, sep1: string, sep2: string, input: Input, d: Direction)
    returns (out: Outcome)
    requires MatrixFor(size, m)
    requires IsSeparator(sep1) && IsSeparator(sep2)
    requires IsAscii(InputText(input))
    ensures m == [] <==> out == Warned(NoMatrix)
    ensures out == Warned(MissingSeparator) <==> m != [] && (sep1 == [] || sep2 == [])
    ensures out == Warned(SameSeparators) <==> m != [] && sep1 != [] && sep2 != [] && sep1 == sep2
    ensures out == Warned(NoFile) <==>
      m != [] && sep1 != [] && sep2 != [] && sep1 != sep2 &&
      input.FromFile? && input.content == [] && input.path == []
    ensures out == Warned(NoText) <==>
      m != [] && sep1 != [] && sep2 != [] && sep1 != sep2 && input.Typed? && input.text == []
    ensures out.Shown? ==>
      var text := InputText(input);
      && |sep1| == 1 && |sep2| == 1 && sep1[0] != sep2[0]
      && (out.pairs, out.inserted) == Pairing(Normalize(size, text), sep1[0], sep2[0])
      && out.processed == SubstituteAll(m, out.pairs, d)
      && out.result == Cipher(size, m, sep1[0], sep2[0], text, d)
      && PassThrough(size, out.result) == PassThrough(size, text)
      && UpperAll(Letters(size, out.result)) == Concat(out.processed)
      && |out.result| == |text| + |out.inserted|
  {
    if m == [] {
      return Warned(NoMatrix);
    }
    if sep1 == [] || sep2 == [] {
      return Warned(MissingSeparator);
    }
    if sep1 == sep2 {
      return Warned(SameSeparators);
    }
    var text := InputText(input);
    if input.FromFile? {
      if text == [] && input.path == [] {
        return Warned(NoFile);
      }
    } else if text == [] {
      return Warned(NoText);
    }
    var s1, s2 := sep1[0], sep2[0];
    var pairs, ins;
    if size == Five {
      pairs, ins := ProcessPlaintext5x5(text, s1, s2);
    } else {
      pairs, ins := ProcessPlaintext6x6(text, s1, s2);
    }
    var processed := SubstitutePairs(m, pairs, d);
    var stream := Concat(processed);
    var result := Reconstruct(size, text, stream, ins);
    CipherFacts(size, m, s1, s2, text, d);
    out := Shown(pairs, ins, processed, result);
  }
}
