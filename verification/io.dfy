/**
 * splitByDelimiter: cuts a string at every occurrence of a delimiter string.
 * Empty pieces between two delimiters are kept; a piece after a final
 * delimiter is not produced.
 */
module TextSplit {
  import opened Results

  /** `delim` occurs in `s` starting at index j. */
  predicate OccursAt(s: string, delim: string, j: int)
  {
    0 <= j && j + |delim| <= |s| && s[j..j + |delim|] == delim
  }

  /** std::string::find: the first occurrence of `delim` at or after `from`,
      or None for npos. */
  function Find(s: string, delim: string, from: nat): (r: Option<nat>)
    ensures r.Some? ==> from <= r.value && OccursAt(s, delim, r.value)
    decreases |s| - from
  {
    if from + |delim| > |s| then None
    else if s[from..from + |delim|] == delim then Some(from)
    else Find(s, delim, from + 1)
  }

  /** Find returns the first occurrence, and npos only when there is none. */
  lemma {:induction false} FindFirst(s: string, delim: string, from: nat)
    ensures Find(s, delim, from).Some? ==> forall j :: from <= j < Find(s, delim, from).value ==> !OccursAt(s, delim, j)
    ensures Find(s, delim, from).None? ==> forall j :: from <= j ==> !OccursAt(s, delim, j)
    decreases |s| - from
  {
    if from + |delim| <= |s| && s[from..from + |delim|] != delim {
      FindFirst(s, delim, from + 1);
    }
  }

  /** End of the piece starting at `prev`: the next occurrence, or the end of `s`. */
  function PieceEnd(s: string, delim: string, prev: nat): (pos: nat)
    ensures prev <= |s| ==> prev <= pos <= |s|
  {
    match Find(s, delim, prev)
    case None => |s|
    case Some(i) => i
  }

  /** The pieces of `s` from index `prev` on. */
  function SplitFrom(s: string, delim: string, prev: nat): seq<string>
    requires delim != [] || prev >= |s|
    decreases |s| - prev
  {
    if prev >= |s| then []
    else
      var pos := PieceEnd(s, delim, prev);
      [s[prev..pos]] + SplitFrom(s, delim, pos + |delim|)
  }

  /** What splitByDelimiter returns. An empty delimiter is matched at every
      position without advancing, so a non-empty string then has no result. */
  function Split(s: string, delim: string): seq<string>
    requires delim != [] || s == []
  {
    SplitFrom(s, delim, 0)
  }

  /** The pieces found so far, `acc`, followed by those of `s` from `prev` on:
      the loop of splitByDelimiter, run to the end. */
  function SplitAcc(s: string, delim: string, prev: nat, acc: seq<string>): seq<string>
    requires delim != [] || prev >= |s|
    decreases |s| - prev
  {
    if prev >= |s| then acc
    else
      var pos := PieceEnd(s, delim, prev);
      SplitAcc(s, delim, pos + |delim|, acc + [s[prev..pos]])
  }

  lemma {:induction false} SplitAccIsSplitFrom(s: string, delim: string, prev: nat, acc: seq<string>)
    requires delim != [] || prev >= |s|
    ensures SplitAcc(s, delim, prev, acc) == acc + SplitFrom(s, delim, prev)
    decreases |s| - prev
  {
    if prev >= |s| {
      assert acc + [] == acc;
    } else {
      var pos := PieceEnd(s, delim, prev);
      var token := s[prev..pos];
      SplitAccIsSplitFrom(s, delim, pos + |delim|, acc + [token]);
      PushPiece(acc, token, SplitFrom(s, delim, pos + |delim|));
    }
  }

  /** Moving one piece from the pieces still to come to those found. */
  lemma PushPiece(tokens: seq<string>, token: string, rest: seq<string>)
    ensures (tokens + [token]) + rest == tokens + ([token] + rest)
  {
  }

  /** One piece of the loop. */
  lemma SplitAccStep(s: string, delim: string, prev: nat, pos: nat, acc: seq<string>)
    requires delim != [] && prev < |s| && pos == PieceEnd(s, delim, prev)
    ensures SplitAcc(s, delim, prev, acc) == SplitAcc(s, delim, pos + |delim|, acc + [s[prev..pos]])
  {
  }

  /** The end of the piece starting at `prev`: std::string::find, with npos
      read as the end of the string. */
  method FindPieceEnd(s: string, delim: string, prev: nat) returns (pos: nat)
    requires prev <= |s|
    ensures pos == PieceEnd(s, delim, prev)
    ensures prev <= pos <= |s|
  {
    var found := Find(s, delim, prev);
    if found.None? {
      pos := |s|;
    } else {
      pos := found.value;
    }
  }

  /** With an empty delimiter, find matches where the search starts, so the
      next search would start at the same place again. */
  lemma EmptyDelimiterStalls(s: string, prev: nat)
    requires prev <= |s|
    ensures Find(s, [], prev) == Some(prev)
    ensures PieceEnd(s, [], prev) == prev
  {
  }

  /** Appends a piece; an empty piece is pushed as an explicit empty string. */
  method PushToken(tokens: seq<string>, token: string) returns (r: seq<string>)
    ensures r == tokens + [token]
  {
    if token != [] {
      r := tokens + [token];
    } else {
      r := tokens + [""];
    }
  }

  /** Computes Split(s, delim) with std::string::find and substr steps. */
  method SplitByDelimiter(s: string, delim: string) returns (tokens: seq<string>)
    requires delim != [] || s == []
    ensures tokens == Split(s, delim)
  {
    tokens := [];
    ghost var all := SplitAcc(s, delim, 0, []);
    var prev: nat, pos: nat := 0, 0;
    while pos < |s| && prev < |s|
      invariant pos <= prev <= |s| + |delim|
      invariant delim != [] || prev >= |s|
      invariant SplitAcc(s, delim, prev, tokens) == all
      decreases |s| + |delim| - prev
    {
      pos := FindPieceEnd(s, delim, prev);
      var token := s[prev..pos];
      SplitAccStep(s, delim, prev, pos, tokens);
      tokens := PushToken(tokens, token);
      prev := pos + |delim|;
    }
    SplitAccIsSplitFrom(s, delim, 0, []);
    assert [] + Split(s, delim) == Split(s, delim);
  }

  // ---------------------------------------------------------------------------
  // Properties
  // ---------------------------------------------------------------------------

  /** The pieces glued back together with the delimiter between them. */
  function Join(tokens: seq<string>, delim: string): string
  {
    if tokens == [] then []
    else if |tokens| == 1 then tokens[0]
    else tokens[0] + delim + Join(tokens[1..], delim)
  }

  /** The text from `prev` on is the piece, the delimiter found after it, and the rest. */
  lemma PieceAndDelimiter(s: string, delim: string, prev: nat)
    requires prev <= |s| && Find(s, delim, prev).Some?
    ensures var pos := PieceEnd(s, delim, prev);
      s[prev..] == s[prev..pos] + delim + s[pos + |delim|..]
  {
    var pos := PieceEnd(s, delim, prev);
    assert OccursAt(s, delim, pos);
    assert s[prev..] == s[prev..pos] + s[pos..pos + |delim|] + s[pos + |delim|..];
  }

  /** Join of a piece followed by at least one more. */
  lemma JoinCons(token: string, rest: seq<string>, delim: string)
    requires rest != []
    ensures Join([token] + rest, delim) == token + delim + Join(rest, delim)
  {
    assert ([token] + rest)[1..] == rest;
  }

  /** Gluing the pieces from the first delimiter on back after it. */
  lemma GlueRest(piece: string, delim: string, tail: string, joined: string)
    requires joined == tail || joined + delim == tail
    ensures var glued := piece + delim + joined;
      glued == piece + delim + tail || glued + delim == piece + delim + tail
  {
    if joined + delim == tail {
      assert (piece + delim + joined) + delim == piece + delim + (joined + delim);
    }
  }

  lemma {:induction false} JoinSplitFrom(s: string, delim: string, prev: nat)
    requires delim != [] && prev < |s|
    ensures var joined := Join(SplitFrom(s, delim, prev), delim);
      joined == s[prev..] || joined + delim == s[prev..]
    decreases |s| - prev
  {
    var pos := PieceEnd(s, delim, prev);
    var next := pos + |delim|;
    var rest := SplitFrom(s, delim, next);
    assert SplitFrom(s, delim, prev) == [s[prev..pos]] + rest;
    if Find(s, delim, prev).None? {
      assert rest == [];
      assert s[prev..pos] == s[prev..];
    } else {
      PieceAndDelimiter(s, delim, prev);
      if next >= |s| {
        assert rest == [];
        assert s[next..] == [];
      } else {
        JoinSplitFrom(s, delim, next);
        JoinCons(s[prev..pos], rest, delim);
        GlueRest(s[prev..pos], delim, s[next..], Join(rest, delim));
      }
    }
  }

  /** Joining the pieces with the delimiter gives back the string, up to one
      final delimiter, which leaves no piece after it. */
  lemma JoinSplit(s: string, delim: string)
    requires delim != []
    ensures var joined := Join(Split(s, delim), delim);
      joined == s || joined + delim == s
  {
    if s == [] {
    } else {
      JoinSplitFrom(s, delim, 0);
      assert s[0..] == s;
    }
  }

  /** A string without the delimiter is a single piece; the empty string none. */
  lemma SplitWithoutDelimiter(s: string, delim: string)
    requires delim != []
    requires forall j :: !OccursAt(s, delim, j)
    ensures Split(s, delim) == if s == [] then [] else [s]
  {
    if s != [] {
      assert SplitFrom(s, delim, |s| + |delim|) == [];
      assert s[0..|s|] == s;
    }
  }

  /** A piece that ends before the first occurrence after its start holds no occurrence. */
  lemma PieceAvoidsDelimiter(s: string, delim: string, prev: nat, pos: nat, k: int)
    requires delim != [] && prev <= pos <= |s|
    requires forall j :: prev <= j < pos ==> !OccursAt(s, delim, j)
    ensures !OccursAt(s[prev..pos], delim, k)
  {
    var t := s[prev..pos];
    if 0 <= k && k + |delim| <= |t| {
      assert prev <= prev + k < pos;
      assert !OccursAt(s, delim, prev + k);
      var inPiece, inText := t[k..k + |delim|], s[prev + k..prev + k + |delim|];
      forall i | 0 <= i < |inPiece| ensures inPiece[i] == inText[i] {
        assert t[k + i] == s[prev + k + i];
      }
      assert inPiece == inText;
    }
  }

  lemma {:induction false} NoPieceHoldsDelimiterFrom(s: string, delim: string, prev: nat)
    requires delim != []
    ensures forall t, k :: t in SplitFrom(s, delim, prev) ==> !OccursAt(t, delim, k)
    decreases |s| - prev
  {
    if prev < |s| {
      var pos := PieceEnd(s, delim, prev);
      var t := s[prev..pos];
      NoPieceHoldsDelimiterFrom(s, delim, pos + |delim|);
      FindFirst(s, delim, prev);
      forall k ensures !OccursAt(t, delim, k) {
        PieceAvoidsDelimiter(s, delim, prev, pos, k);
      }
    }
  }

  /** No piece contains the delimiter. */
  lemma NoPieceHoldsDelimiter(s: string, delim: string)
    requires delim != []
    ensures forall t, k :: t in Split(s, delim) ==> !OccursAt(t, delim, k)
  {
    NoPieceHoldsDelimiterFrom(s, delim, 0);
  }

  /** An empty piece between two delimiters is kept. */
  lemma SplitKeepsInnerEmptyPiece()
    ensures Split("a,,b", ",") == ["a", "", "b"]
  {
    assert "a,,b"[1..2] == ",";
    assert "a,,b"[2..3] == ",";
    assert "a,,b"[3..4] == "b";
    assert Find("a,,b", ",", 4).None?;
    assert Find("a,,b", ",", 3).None?;
    assert "a,,b"[0..1] == "a" && "a,,b"[2..2] == "" && "a,,b"[3..4] == "b";
  }

  /** No piece follows a final delimiter. */
  lemma SplitDropsPieceAfterFinalDelimiter()
    ensures Split("a,", ",") == ["a"]
  {
    assert "a,"[1..2] == ",";
    assert "a,"[0..1] == "a";
  }

  /** A leading delimiter gives an empty first piece. */
  lemma SplitKeepsLeadingEmptyPiece()
    ensures Split(",a", ",") == ["", "a"]
  {
    assert ",a"[0..1] == ",";
    assert ",a"[1..2] == "a";
    assert Find(",a", ",", 2).None?;
    assert Find(",a", ",", 1).None?;
    assert ",a"[0..0] == "";
  }
}
