/**
 * The slot tokenizer of Helper.cpp: `splitEntry` reads an entry through an
 * `std::istringstream`, calling `std::getline` with the delimiter until it fails.
 */
module Helper {
  import opened ByteStrings
  import opened Decimal

  /** ENTRY_DELIMITER, the byte '|'. */
  const ENTRY_DELIMITER: byte := 124

  /** Positions of the three tokens of a slot. */
  const FILE_NAME_INDEX: nat := 0
  const FILE_ADDRESS_INDEX: nat := 1
  const FILE_SIZE_INDEX: nat := 2

  /** Index of the first delimiter in `s`, or `|s|` when there is none. */
  function FindDelimiter(s: Bytes): (j: nat)
    ensures j <= |s|
    ensures j < |s| ==> s[j] == ENTRY_DELIMITER
    ensures ENTRY_DELIMITER !in s[..j]
  {
    if s == [] || s[0] == ENTRY_DELIMITER then 0
    else
      var j := 1 + FindDelimiter(s[1..]);
      assert s[..j] == [s[0]] + s[1..][..j - 1];
      j
  }

  /**
   * What the `getline` loop produces: one token per call that extracts at least
   * one byte, i.e. the text up to the next delimiter, the delimiter consumed.
   */
  function Split(s: Bytes): seq<Bytes>
    decreases |s|
  {
    if s == [] then []
    else
      var j := FindDelimiter(s);
      if j == |s| then [s] else [s[..j]] + Split(s[j + 1..])
  }

  /** `s` cut at every delimiter: always one piece more than there are delimiters. */
  function Pieces(s: Bytes): (ps: seq<Bytes>)
    ensures |ps| >= 1
    decreases |s|
  {
    var j := FindDelimiter(s);
    if j == |s| then [s] else [s[..j]] + Pieces(s[j + 1..])
  }

  /** The tokens written back to back with a delimiter between neighbours. */
  function Join(ts: seq<Bytes>): Bytes {
    if ts == [] then []
    else if |ts| == 1 then ts[0]
    else ts[0] + [ENTRY_DELIMITER] + Join(ts[1..])
  }

  /** `Pieces(s)` without its last piece when that piece is empty. */
  function DropFinalEmpty(ps: seq<Bytes>): seq<Bytes> {
    if ps != [] && ps[|ps| - 1] == [] then ps[..|ps| - 1] else ps
  }

  /**
   * `getline` semantics: the tokens are the pieces between delimiters, except
   * that an empty last piece (after a trailing delimiter, or the empty input)
   * yields no token.
   */
  lemma {:induction false} SplitIsPiecesWithoutFinalEmpty(s: Bytes)
    ensures Split(s) == DropFinalEmpty(Pieces(s))
    decreases |s|
  {
    var j := FindDelimiter(s);
    if s != [] && j < |s| {
      var rest := Pieces(s[j + 1..]);
      SplitIsPiecesWithoutFinalEmpty(s[j + 1..]);
      assert ([s[..j]] + rest)[..|rest|] == [s[..j]] + rest[..|rest| - 1];
    }
  }

  /** The empty entry has no tokens; a trailing delimiter adds no empty token. */
  lemma SplitTrailingDelimiter(s: Bytes)
    ensures Split([]) == []
    ensures Split(s + [ENTRY_DELIMITER]) == Pieces(s)
  {
    SplitIsPiecesWithoutFinalEmpty(s + [ENTRY_DELIMITER]);
    PiecesAppendDelimiter(s);
  }

  lemma {:induction false} PiecesAppendDelimiter(s: Bytes)
    ensures Pieces(s + [ENTRY_DELIMITER]) == Pieces(s) + [[]]
    decreases |s|
  {
    var t := s + [ENTRY_DELIMITER];
    var j := FindDelimiter(s);
    assert t[..j] == s[..j];
    if j == |s| {
      assert t[j + 1..] == [];
      PiecesCut(t, j);
    } else {
      var rest := s[j + 1..];
      assert t[j + 1..] == rest + [ENTRY_DELIMITER];
      PiecesCut(t, j);
      PiecesCut(s, j);
      PiecesAppendDelimiter(rest);
      assert [s[..j]] + (Pieces(rest) + [[]]) == ([s[..j]] + Pieces(rest)) + [[]];
    }
  }

  /** Cutting at the first delimiter, at position `j`: the first piece, then the pieces after it. */
  lemma PiecesCut(s: Bytes, j: nat)
    requires j < |s| && s[j] == ENTRY_DELIMITER && ENTRY_DELIMITER !in s[..j]
    ensures Pieces(s) == [s[..j]] + Pieces(s[j + 1..])
  {
    FindDelimiterUnique(s, j);
  }

  /** Every byte of every token is a byte of the input, and no token holds a delimiter. */
  lemma {:induction false} SplitTokensComeFromInput(s: Bytes)
    ensures forall t, b :: t in Split(s) && b in t ==> b in s && b != ENTRY_DELIMITER
    decreases |s|
  {
    if s != [] {
      var j := FindDelimiter(s);
      var head := s[..j];
      assert forall b :: b in head ==> b in s && b != ENTRY_DELIMITER;
      if j < |s| {
        var rest := s[j + 1..];
        SplitTokensComeFromInput(rest);
        assert forall b :: b in rest ==> b in s;
        assert Split(s) == [head] + Split(rest);
      } else {
        assert head == s;
      }
    }
  }

  /** No token contains the delimiter. */
  lemma SplitTokensHaveNoDelimiter(s: Bytes)
    ensures forall t :: t in Split(s) ==> ENTRY_DELIMITER !in t
  {
    SplitTokensComeFromInput(s);
  }

  /** Joining the pieces gives back the input. */
  lemma {:induction false} JoinPieces(s: Bytes)
    ensures Join(Pieces(s)) == s
    decreases |s|
  {
    var j := FindDelimiter(s);
    if j < |s| {
      JoinPieces(s[j + 1..]);
      assert s == s[..j] + [ENTRY_DELIMITER] + s[j + 1..];
    }
  }

  /**
   * Reconstruction, hence order: when the entry does not end with the delimiter,
   * joining its tokens with '|' gives back the entry exactly.
   */
  lemma SplitReconstructs(s: Bytes)
    requires s == [] || s[|s| - 1] != ENTRY_DELIMITER
    ensures Join(Split(s)) == s
  {
    SplitIsPiecesWithoutFinalEmpty(s);
    JoinPieces(s);
    if s != [] {
      LastPieceEmptyOnlyAfterDelimiter(s);
    }
  }

  /** The last piece is empty only when the input is empty or ends with the delimiter. */
  lemma {:induction false} LastPieceEmptyOnlyAfterDelimiter(s: Bytes)
    ensures var ps := Pieces(s);
      ps[|ps| - 1] == [] ==> s == [] || s[|s| - 1] == ENTRY_DELIMITER
    decreases |s|
  {
    var j := FindDelimiter(s);
    if j < |s| {
      var rest := s[j + 1..];
      LastPieceEmptyOnlyAfterDelimiter(rest);
      if rest == [] {
        assert s[|s| - 1] == s[j];
      } else {
        assert s[|s| - 1] == rest[|rest| - 1];
      }
    }
  }

  /** Tokenizing joined delimiter-free tokens whose last one is non-empty gives them back. */
  lemma {:induction false} SplitJoin(ts: seq<Bytes>)
    requires |ts| >= 1 && ts[|ts| - 1] != []
    requires forall i :: 0 <= i < |ts| ==> ENTRY_DELIMITER !in ts[i]
    ensures Split(Join(ts)) == ts
  {
    var s := Join(ts);
    if |ts| == 1 {
      assert FindDelimiter(s) == |s|;
    } else {
      var tail := Join(ts[1..]);
      assert s == ts[0] + [ENTRY_DELIMITER] + tail;
      var j := |ts[0]|;
      assert s[..j] == ts[0];
      FindDelimiterUnique(s, j);
      assert s[j + 1..] == tail;
      SplitJoin(ts[1..]);
    }
  }

  /** The round trip with the encoder of a slot: `name|address|size` splits into its three fields. */
  lemma SplitEntryFields(name: Bytes, address: nat, size: nat)
    requires ENTRY_DELIMITER !in name
    ensures Split(name + [ENTRY_DELIMITER] + Dec(address) + [ENTRY_DELIMITER] + Dec(size))
         == [name, Dec(address), Dec(size)]
  {
    var ts := [name, Dec(address), Dec(size)];
    NonDigitNotInNumeral(Dec(address), ENTRY_DELIMITER);
    NonDigitNotInNumeral(Dec(size), ENTRY_DELIMITER);
    var last := [Dec(size)];
    var tail := [Dec(address), Dec(size)];
    assert ts[1..] == tail && tail[1..] == last;
    assert Join(last) == Dec(size);
    assert Join(tail) == Dec(address) + [ENTRY_DELIMITER] + Dec(size);
    assert Join(ts) == name + [ENTRY_DELIMITER] + (Dec(address) + [ENTRY_DELIMITER] + Dec(size));
    assert name + [ENTRY_DELIMITER] + (Dec(address) + [ENTRY_DELIMITER] + Dec(size))
        == name + [ENTRY_DELIMITER] + Dec(address) + [ENTRY_DELIMITER] + Dec(size);
    assert forall i :: 0 <= i < |ts| ==> ENTRY_DELIMITER !in ts[i];
    SplitJoin(ts);
  }

  /** `splitEntry`: the `getline` loop, proved to produce `Split(entry)`. */
  method SplitEntry(entry: Bytes) returns (tokens: seq<Bytes>)
    ensures tokens == Split(entry)
  {
    tokens := [];
    var pos := 0;
    while pos < |entry|
      invariant 0 <= pos <= |entry|
      invariant tokens + Split(entry[pos..]) == Split(entry)
      decreases |entry| - pos
    {
      // getline: extract up to the next delimiter or the end of the stream
      var end := pos + FindDelimiter(entry[pos..]);
      assert entry[pos..][..end - pos] == entry[pos..end];
      var next := if end < |entry| then end + 1 else end;
      SplitStep(entry, pos, end, next);
      assert (tokens + [entry[pos..end]]) + Split(entry[next..]) == tokens + Split(entry[pos..]);
      tokens := tokens + [entry[pos..end]];
      pos := next;
    }
  }

  /** The loop step of `SplitEntry`: the token `entry[pos..end]`, then the rest after the delimiter. */
  lemma SplitStep(entry: Bytes, pos: nat, end: nat, next: nat)
    requires pos < |entry| && pos <= end <= |entry|
    requires end < |entry| ==> entry[end] == ENTRY_DELIMITER
    requires ENTRY_DELIMITER !in entry[pos..end]
    requires next == if end < |entry| then end + 1 else end
    ensures Split(entry[pos..]) == [entry[pos..end]] + Split(entry[next..])
  {
    var rest := entry[pos..];
    assert rest[..end - pos] == entry[pos..end];
    SplitUnfold(rest, end - pos);
    if end < |entry| {
      assert rest[end - pos + 1..] == entry[next..];
    } else {
      assert entry[next..] == [];
    }
  }

  /** One `getline` call: the first token reaches the first delimiter, which is consumed. */
  lemma SplitUnfold(s: Bytes, j: nat)
    requires s != [] && j <= |s|
    requires j < |s| ==> s[j] == ENTRY_DELIMITER
    requires ENTRY_DELIMITER !in s[..j]
    ensures Split(s) == [s[..j]] + (if j < |s| then Split(s[j + 1..]) else [])
  {
    FindDelimiterUnique(s, j);
    if j == |s| {
      assert s[..j] == s;
    }
  }

  /** The first-delimiter position is determined by its defining properties. */
  lemma {:induction false} FindDelimiterUnique(s: Bytes, j: nat)
    requires j <= |s|
    requires j < |s| ==> s[j] == ENTRY_DELIMITER
    requires ENTRY_DELIMITER !in s[..j]
    ensures FindDelimiter(s) == j
  {
    if j > 0 {
      assert s[0] in s[..j];
      assert s[1..][..j - 1] == s[1..j];
      assert forall b :: b in s[1..j] ==> b in s[..j];
      FindDelimiterUnique(s[1..], j - 1);
    }
  }
}
