/**
 The request-side text handling of main.go: the whole-word, case-insensitive
 profanity filter applied to chirp bodies, the 140-byte length limit of
 handlePostChirp, and the "Bearer " prefix that validateJWT expects in the
 Authorization header. Strings are sequences of Unicode scalar values;
 where Go counts bytes, the UTF-8 length is computed explicitly.
 */
module Server {
  import opened Results
  import Db

  /** gProfanity: the words masked in every chirp. */
  const Profanity: seq<string> := ["kerfuffle", "sharbert", "fornax"]

  /** What each profane word becomes. */
  const Mask: string := "****"

  /** The largest accepted chirp body, in bytes. */
  const MaxChirpBytes: nat := 140

  const BearerPrefix: string := "Bearer "

  datatype HandlerError =
    | ChirpTooLong   // 400 "Chirp is too long"
    | BadAuthHeader  // ErrBadAuthHeader

  /** A failure of the underlying reader; an in-memory reader never produces one. */
  datatype ReadError = ReadError

  // ---------------------------------------------------------------------------
  // Chirp length
  // ---------------------------------------------------------------------------

  /** The number of bytes of s in UTF-8, which is what Go's len counts. */
  function Utf8Length(s: string): (n: nat)
    ensures |s| <= n <= 4 * |s|
  {
    if s == [] then 0
    else
      var c := s[0] as int;
      (if c < 0x80 then 1 else if c < 0x800 then 2 else if c < 0x1_0000 then 3 else 4)
      + Utf8Length(s[1..])
  }

  /** handlePostChirp's guard: the body is rejected when its length exceeds 140 bytes. */
  predicate ChirpTooLongFor(body: string)
  {
    Utf8Length(body) > MaxChirpBytes
  }

  predicate IsAscii(s: string)
  {
    forall i :: 0 <= i < |s| ==> s[i] as int < 0x80
  }

  /** For ASCII text, bytes and characters coincide. */
  lemma {:induction false} AsciiLength(s: string)
    requires IsAscii(s)
    ensures Utf8Length(s) == |s|
  {
    if s != [] {
      AsciiLength(s[1..]);
    }
  }

  /** Any ASCII body of at most 140 characters passes; 141 characters do not. */
  lemma AsciiLimit(s: string)
    requires IsAscii(s)
    ensures ChirpTooLongFor(s) <==> |s| > 140
  {
    AsciiLength(s);
  }

  /** 71 copies of U+00E9 are 71 characters but 142 bytes: rejected. */
  lemma {:induction false} TwoByteCharsCountTwice(n: nat)
    ensures Utf8Length(seq(n, _ => 'é')) == 2 * n
  {
    var s := seq(n, _ => 'é');
    if n > 0 {
      assert s[1..] == seq(n - 1, _ => 'é');
      TwoByteCharsCountTwice(n - 1);
    }
  }

  // ---------------------------------------------------------------------------
  // Authorization header
  // ---------------------------------------------------------------------------

  /** validateJWT's header check: the text after "Bearer ", or ErrBadAuthHeader. */
  function BearerToken(auth: string): (r: Result<string, HandlerError>)
    ensures r.Ok? <==> BearerPrefix <= auth
    ensures r.Ok? ==> auth == BearerPrefix + r.value
    ensures r.Err? ==> r.error == BadAuthHeader
  {
    if BearerPrefix <= auth then Ok(auth[|BearerPrefix|..]) else Err(BadAuthHeader)
  }

  /** Adding the prefix and stripping it again gives back the token, prefix included once. */
  lemma BearerRoundTrip(token: string)
    ensures BearerToken(BearerPrefix + token) == Ok(token)
  {
    assert (BearerPrefix + token)[|BearerPrefix|..] == token;
  }

  /** The prefix is matched case-sensitively and must include the space. */
  lemma BearerIsExact()
    ensures BearerToken("bearer abc") == Err(BadAuthHeader)
    ensures BearerToken("Bearerabc") == Err(BadAuthHeader)
    ensures BearerToken("") == Err(BadAuthHeader)
  {
    assert "bearer abc"[0] != BearerPrefix[0];
    assert "Bearerabc"[6] != BearerPrefix[6];
  }

  // ---------------------------------------------------------------------------
  // Case folding (strings.EqualFold, restricted to ASCII)
  // ---------------------------------------------------------------------------

  function FoldAscii(c: char): char
  {
    if 'A' <= c <= 'Z' then (c as int + 32) as char else c
  }

  predicate EqualFold(a: string, b: string)
  {
    |a| == |b| && forall i :: 0 <= i < |a| ==> FoldAscii(a[i]) == FoldAscii(b[i])
  }

  // ---------------------------------------------------------------------------
  // Reading pieces: bufio.Reader.ReadString(' ')
  // ---------------------------------------------------------------------------

  /** The index of the first space of s, or |s| when there is none. */
  function FirstSpace(s: string): (k: nat)
    ensures k <= |s|
    ensures k < |s| ==> s[k] == ' '
  {
    if s == [] || s[0] == ' ' then 0 else 1 + FirstSpace(s[1..])
  }

  /** No space comes before FirstSpace(s). */
  lemma {:induction false} FirstSpaceShape(s: string)
    ensures forall i :: 0 <= i < FirstSpace(s) ==> s[i] != ' '
  {
    if s != [] && s[0] != ' ' {
      FirstSpaceShape(s[1..]);
      assert forall i :: 1 <= i < FirstSpace(s) ==> s[i] == s[1..][i - 1];
    }
  }

  /**
   The strings that successive ReadString(' ') calls return on s: each runs
   up to and including the next space, and the last is what follows the
   final space (empty when s is empty or ends with a space).
   */
  function Pieces(s: string): (ps: seq<string>)
    ensures |ps| >= 1
    decreases |s|
  {
    var k := FirstSpace(s);
    if k < |s| then [s[..k + 1]] + Pieces(s[k + 1..]) else [s]
  }

  function Concat(ps: seq<string>): string
  {
    if ps == [] then "" else ps[0] + Concat(ps[1..])
  }

  /** strings.TrimRight(s, " "). */
  function TrimRightSpaces(s: string): string
  {
    if s != [] && s[|s| - 1] == ' ' then TrimRightSpaces(s[..|s| - 1]) else s
  }

  /** TrimRightSpaces removes exactly the trailing spaces. */
  lemma {:induction false} TrimRightSpacesShape(s: string)
    ensures TrimRightSpaces(s) <= s
    ensures TrimRightSpaces(s) == [] || TrimRightSpaces(s)[|TrimRightSpaces(s)| - 1] != ' '
    ensures forall i :: |TrimRightSpaces(s)| <= i < |s| ==> s[i] == ' '
  {
    if s != [] && s[|s| - 1] == ' ' {
      TrimRightSpacesShape(s[..|s| - 1]);
    }
  }

  /**
   One step of caseInsensitiveReplace: a piece whose text without trailing
   spaces folds to search becomes replace, followed by a space if the piece
   ended with one; any other piece is kept as it is.
   */
  function ReplacePiece(p: string, search: string, replace: string): string
  {
    if EqualFold(TrimRightSpaces(p), search) then
      replace + (if p != [] && p[|p| - 1] == ' ' then " " else "")
    else
      p
  }

  function ReplaceAll(ps: seq<string>, search: string, replace: string): (qs: seq<string>)
    ensures |qs| == |ps|
  {
    if ps == [] then [] else [ReplacePiece(ps[0], search, replace)] + ReplaceAll(ps[1..], search, replace)
  }

  /**
   What caseInsensitiveReplace(strings.NewReader(s), search, replace) returns:
   the pieces of s, in order, each passed through ReplacePiece.
   */
  function ReplaceWords(s: string, search: string, replace: string): string
    decreases |s|
  {
    var k := FirstSpace(s);
    if k < |s| then
      ReplacePiece(s[..k + 1], search, replace) + ReplaceWords(s[k + 1..], search, replace)
    else
      ReplacePiece(s, search, replace)
  }

  /** What profanityFilter computes: one ReplaceWords pass per word, in order. */
  function FilterWords(s: string, words: seq<string>, replace: string): string
    decreases |words|
  {
    if words == [] then s else FilterWords(ReplaceWords(s, words[0], replace), words[1..], replace)
  }

  // ---------------------------------------------------------------------------
  // The two imperative routines of main.go
  // ---------------------------------------------------------------------------

  /**
   bufio.Reader.ReadString(' ') on the unread part input[pos..] of an in-memory
   reader: the text up to and including the next space, or, with eof set
   (io.EOF), everything that is left.
   */
  method ReadString(input: string, pos: nat) returns (s: string, next: nat, eof: bool)
    requires pos <= |input|
    ensures pos <= next <= |input|
    ensures eof <==> FirstSpace(input[pos..]) == |input| - pos
    ensures !eof ==> next == pos + FirstSpace(input[pos..]) + 1 && s == input[pos..next] && input[next - 1] == ' '
    ensures eof ==> next == |input| && s == input[pos..]
  {
    var k := FirstSpace(input[pos..]);
    if pos + k < |input| {
      assert input[pos + k] == input[pos..][k];
      s, next, eof := input[pos..pos + k + 1], pos + k + 1, false;
    } else {
      s, next, eof := input[pos..], |input|, true;
    }
  }

  /**
   The body of caseInsensitiveReplace's loop after the read: a piece whose
   text without trailing spaces folds to search is written as replace, plus a
   space if the piece ended with one; any other piece is written unchanged.
   Reading s[len(s)-1] panics on an empty matching piece, which can only
   happen when search is empty; the precondition excludes it.
   */
  method WritePiece(out: string, s: string, search: string, replace: string) returns (written: string)
    requires s != [] || search != []
    ensures written == out + ReplacePiece(s, search, replace)
  {
    if EqualFold(TrimRightSpaces(s), search) {
      written := out + replace;
      if s[|s| - 1] == ' ' {
        assert (out + replace) + " " == out + (replace + " ");
        written := written + " ";
      }
    } else {
      written := out + s;
    }
  }

  /**
   caseInsensitiveReplace over an in-memory reader. The source reads s[len(s)-1]
   of every matching piece, which panics on the empty last piece when search
   is empty; the precondition excludes exactly that input.
   */
  method CaseInsensitiveReplace(input: string, search: string, replace: string)
    returns (out: string, err: Outcome<ReadError>)
    requires search != [] || (input != [] && input[|input| - 1] != ' ')
    ensures out == ReplaceWords(input, search, replace)
    ensures err == Pass
  {
    out := "";
    var pos := 0;
    var eof := false;
    while !eof
      invariant 0 <= pos <= |input|
      invariant !eof && 0 < pos ==> input[pos - 1] == ' '
      invariant !eof ==> out + ReplaceWords(input[pos..], search, replace) == ReplaceWords(input, search, replace)
      invariant eof ==> out == ReplaceWords(input, search, replace)
      decreases |input| - pos, !eof
    {
      ghost var before, start := out, pos;
      var s;
      s, pos, eof := ReadString(input, pos);
      out := WritePiece(out, s, search, replace);
      if eof {
        Finish(input, start, before, search, replace);
      } else {
        Advance(input, start, pos, before, search, replace);
      }
    }
    err := Pass;
  }

  /** ReplaceWords on a string whose first piece, a, ends with a space and is followed by b. */
  lemma ReplaceWordsUnfold(s: string, a: string, b: string, search: string, replace: string)
    requires FirstSpace(s) < |s| && a == s[..FirstSpace(s) + 1] && b == s[FirstSpace(s) + 1..]
    ensures ReplaceWords(s, search, replace) == ReplacePiece(a, search, replace) + ReplaceWords(b, search, replace)
  {
  }

  /** A piece input[pos..next] ending in a space keeps CaseInsensitiveReplace's loop invariant. */
  lemma Advance(input: string, pos: nat, next: nat, before: string, search: string, replace: string)
    requires pos <= |input| && next == pos + FirstSpace(input[pos..]) + 1 <= |input|
    requires before + ReplaceWords(input[pos..], search, replace) == ReplaceWords(input, search, replace)
    ensures (before + ReplacePiece(input[pos..next], search, replace)) + ReplaceWords(input[next..], search, replace)
            == ReplaceWords(input, search, replace)
  {
    var piece := ReplacePiece(input[pos..next], search, replace);
    var tail := ReplaceWords(input[next..], search, replace);
    ReplaceWordsAt(input, pos, next, search, replace);
    assert (before + piece) + tail == before + (piece + tail);
  }

  /** ReplaceWords on the unread part input[pos..], split at the end next of its first piece. */
  lemma ReplaceWordsAt(input: string, pos: nat, next: nat, search: string, replace: string)
    requires pos <= |input| && next == pos + FirstSpace(input[pos..]) + 1 <= |input|
    ensures ReplaceWords(input[pos..], search, replace)
            == ReplacePiece(input[pos..next], search, replace) + ReplaceWords(input[next..], search, replace)
  {
    SliceOfSlice(input, pos, next);
    ReplaceWordsUnfold(input[pos..], input[pos..next], input[next..], search, replace);
  }

  lemma SliceOfSlice(input: string, pos: nat, next: nat)
    requires pos <= next <= |input|
    ensures input[pos..][..next - pos] == input[pos..next]
    ensures input[pos..][next - pos..] == input[next..]
  {
  }

  /** The last piece, read at pos, completes the output. */
  lemma Finish(input: string, pos: nat, before: string, search: string, replace: string)
    requires pos <= |input| && FirstSpace(input[pos..]) == |input| - pos
    requires before + ReplaceWords(input[pos..], search, replace) == ReplaceWords(input, search, replace)
    ensures before + ReplacePiece(input[pos..], search, replace) == ReplaceWords(input, search, replace)
  {
  }

  /** profanityFilter: masks each word of gProfanity in turn. */
  method ProfanityFilter(input: string) returns (out: string, err: Outcome<ReadError>)
    ensures out == FilterWords(input, Profanity, Mask)
    ensures err == Pass
  {
    out := input;
    err := Pass;
    for i := 0 to |Profanity|
      invariant FilterWords(out, Profanity[i..], Mask) == FilterWords(input, Profanity, Mask)
      invariant err == Pass
    {
      assert Profanity[i..][1..] == Profanity[i + 1..];
      out, err := CaseInsensitiveReplace(out, Profanity[i], Mask);
    }
  }

  /**
   The part of handlePostChirp between decoding and responding: reject an
   over-long body before touching the store, otherwise store the filtered body.
   profanityFilter never fails on an in-memory reader, so the handler's
   500 branch for it cannot be taken and is not modelled.
   */
  method PostChirp(store: Db.DB, authorId: int, body: string) returns (r: Result<Db.Chirp, HandlerError>)
    requires store.Valid()
    modifies store
    ensures store.Valid()
    ensures ChirpTooLongFor(body) ==> r == Err(ChirpTooLong) && unchanged(store)
    ensures !ChirpTooLongFor(body) ==>
              var c := Db.Chirp(Db.NextId(old(store.chirps).Keys), authorId, FilterWords(body, Profanity, Mask));
              && r == Ok(c)
              && store.chirps == old(store.chirps)[c.id := c]
              && store.users == old(store.users)
              && store.revokedTokens == old(store.revokedTokens)
  {
    if Utf8Length(body) > MaxChirpBytes {
      return Err(ChirpTooLong);
    }
    var filtered, _ := ProfanityFilter(body);
    var c := store.CreateChirp(authorId, filtered);
    r := Ok(c);
  }

  // ---------------------------------------------------------------------------
  // Properties of the filter
  // ---------------------------------------------------------------------------

  /** ReplaceWords agrees with replacing every piece and joining the results. */
  lemma {:induction false} ReplaceWordsPieces(s: string, search: string, replace: string)
    ensures ReplaceWords(s, search, replace) == Concat(ReplaceAll(Pieces(s), search, replace))
    decreases |s|
  {
    var k := FirstSpace(s);
    var ps := Pieces(s);
    var qs := ReplaceAll(ps, search, replace);
    assert qs[0] == ReplacePiece(ps[0], search, replace) && qs[1..] == ReplaceAll(ps[1..], search, replace);
    if k < |s| {
      assert ps[0] == s[..k + 1] && ps[1..] == Pieces(s[k + 1..]);
      ReplaceWordsPieces(s[k + 1..], search, replace);
    } else {
      assert ps == [s];
    }
  }

  /** Cutting the input into pieces loses nothing: the pieces join back to it. */
  lemma {:induction false} ConcatPieces(s: string)
    ensures Concat(Pieces(s)) == s
    decreases |s|
  {
    var k := FirstSpace(s);
    var ps := Pieces(s);
    assert Concat(ps) == ps[0] + Concat(ps[1..]);
    if k < |s| {
      assert ps[0] == s[..k + 1] && ps[1..] == Pieces(s[k + 1..]);
      ConcatPieces(s[k + 1..]);
      assert s == s[..k + 1] + s[k + 1..];
    } else {
      assert ps[0] == s && ps[1..] == [];
    }
  }

  /** No piece matches: ReplaceAll keeps every piece. */
  lemma {:induction false} ReplaceAllNoMatch(ps: seq<string>, search: string, replace: string)
    requires forall i :: 0 <= i < |ps| ==> !EqualFold(TrimRightSpaces(ps[i]), search)
    ensures ReplaceAll(ps, search, replace) == ps
  {
    if ps != [] {
      ReplaceAllNoMatch(ps[1..], search, replace);
      assert ps == [ps[0]] + ps[1..];
    }
  }

  /** Input with no matching word comes back unchanged. */
  lemma NoMatchUnchanged(s: string, search: string, replace: string)
    requires forall p :: p in Pieces(s) ==> !EqualFold(TrimRightSpaces(p), search)
    ensures ReplaceWords(s, search, replace) == s
  {
    var ps := Pieces(s);
    assert forall i :: 0 <= i < |ps| ==> ps[i] in ps;
    ReplaceAllNoMatch(ps, search, replace);
    ConcatPieces(s);
    ReplaceWordsPieces(s, search, replace);
  }

  /**
   The shape of ReadString's pieces: all but the last end with their only
   space, and the last holds no space.
   */
  ghost predicate WellFormed(ps: seq<string>)
  {
    && |ps| >= 1
    && (forall i :: 0 <= i < |ps| - 1 ==> ps[i] != [] && ps[i][|ps[i]| - 1] == ' ' && ' ' !in ps[i][..|ps[i]| - 1])
    && ' ' !in ps[|ps| - 1]
  }

  lemma {:induction false} PiecesWellFormed(s: string)
    ensures WellFormed(Pieces(s))
    decreases |s|
  {
    var k := FirstSpace(s);
    FirstSpaceShape(s);
    if k < |s| {
      PiecesWellFormed(s[k + 1..]);
      var p := s[..k + 1];
      assert p[..|p| - 1] == s[..k];
      assert ' ' !in s[..k] by {
        forall i | 0 <= i < k ensures s[..k][i] != ' ' { }
      }
      var ps := Pieces(s);
      assert ps == [p] + Pieces(s[k + 1..]);
    } else {
      assert ' ' !in s by {
        forall i | 0 <= i < |s| ensures s[i] != ' ' { }
      }
    }
  }

  lemma FirstSpaceOfPiece(p: string, t: string)
    requires p != [] && p[|p| - 1] == ' ' && ' ' !in p[..|p| - 1]
    ensures FirstSpace(p + t) == |p| - 1
  {
    FirstSpaceShape(p + t);
    assert (p + t)[|p| - 1] == ' ';
    assert forall i :: 0 <= i < |p| - 1 ==> (p + t)[i] == p[..|p| - 1][i];
  }

  lemma FirstSpaceNone(p: string)
    requires ' ' !in p
    ensures FirstSpace(p) == |p|
  {
  }

  /** Well-formed pieces are exactly what reading their concatenation gives back. */
  lemma {:induction false} PiecesOfConcat(ps: seq<string>)
    requires WellFormed(ps)
    ensures Pieces(Concat(ps)) == ps
  {
    if |ps| == 1 {
      assert Concat(ps) == ps[0] + Concat(ps[1..]);
      assert Concat(ps[1..]) == "";
      assert Concat(ps) == ps[0];
      FirstSpaceNone(ps[0]);
    } else {
      var p := ps[0];
      var t := Concat(ps[1..]);
      assert Concat(ps) == p + t;
      FirstSpaceOfPiece(p, t);
      assert (p + t)[..|p|] == p;
      assert (p + t)[|p|..] == t;
      assert WellFormed(ps[1..]) by {
        forall i | 0 <= i < |ps[1..]| - 1
          ensures ps[1..][i] != [] && ps[1..][i][|ps[1..][i]| - 1] == ' ' && ' ' !in ps[1..][i][..|ps[1..][i]| - 1]
        {
          assert ps[1..][i] == ps[i + 1];
        }
      }
      PiecesOfConcat(ps[1..]);
      assert ps == [p] + ps[1..];
    }
  }

  lemma TrimPiece(w: string)
    requires ' ' !in w
    ensures TrimRightSpaces(w) == w
    ensures TrimRightSpaces(w + " ") == w
  {
    assert (w + " ")[..|w + " "| - 1] == w;
    if w != [] {
      assert w[|w| - 1] in w;
    }
  }

  /** Replacing with a space-free text leaves the pieces' shape intact. */
  lemma {:induction false} ReplaceAllWellFormed(ps: seq<string>, search: string, replace: string)
    requires WellFormed(ps) && ' ' !in replace
    ensures WellFormed(ReplaceAll(ps, search, replace))
    ensures forall i :: 0 <= i < |ps| ==> ReplaceAll(ps, search, replace)[i] == ReplacePiece(ps[i], search, replace)
  {
    var qs := ReplaceAll(ps, search, replace);
    ReplaceAllAt(ps, search, replace);
    forall i | 0 <= i < |ps| - 1
      ensures qs[i] != [] && qs[i][|qs[i]| - 1] == ' ' && ' ' !in qs[i][..|qs[i]| - 1]
    {
      var p := ps[i];
      if EqualFold(TrimRightSpaces(p), search) {
        assert qs[i] == replace + " ";
        assert qs[i][..|qs[i]| - 1] == replace;
      }
    }
    var p := ps[|ps| - 1];
    if EqualFold(TrimRightSpaces(p), search) {
      assert p == [] || p[|p| - 1] != ' ' by {
        if p != [] { assert p[|p| - 1] in p; }
      }
      assert qs[|ps| - 1] == replace;
    }
  }

  lemma {:induction false} ReplaceAllAt(ps: seq<string>, search: string, replace: string)
    ensures forall i :: 0 <= i < |ps| ==> ReplaceAll(ps, search, replace)[i] == ReplacePiece(ps[i], search, replace)
  {
    if ps != [] {
      ReplaceAllAt(ps[1..], search, replace);
    }
  }

  /** With a space-free replacement, the output's pieces are the replaced input pieces. */
  lemma PiecesOfReplaceWords(s: string, search: string, replace: string)
    requires ' ' !in replace
    ensures Pieces(ReplaceWords(s, search, replace)) == ReplaceAll(Pieces(s), search, replace)
  {
    ReplaceWordsPieces(s, search, replace);
    PiecesWellFormed(s);
    ReplaceAllWellFormed(Pieces(s), search, replace);
    PiecesOfConcat(ReplaceAll(Pieces(s), search, replace));
  }

  /** There is one piece more than there are spaces. */
  lemma {:induction false} PieceCount(s: string)
    ensures |Pieces(s)| == multiset(s)[' '] + 1
    decreases |s|
  {
    var k := FirstSpace(s);
    FirstSpaceShape(s);
    if k < |s| {
      PieceCount(s[k + 1..]);
      assert s == s[..k] + [' '] + s[k + 1..];
      assert ' ' !in s[..k] by {
        forall i | 0 <= i < k ensures s[..k][i] != ' ' { }
      }
      assert multiset(s) == multiset(s[..k]) + multiset{' '} + multiset(s[k + 1..]);
    } else {
      assert ' ' !in s by {
        forall i | 0 <= i < |s| ensures s[i] != ' ' { }
      }
    }
  }

  /** With a space-free replacement, the number of spaces is preserved. */
  lemma SpacesPreserved(s: string, search: string, replace: string)
    requires ' ' !in replace
    ensures multiset(ReplaceWords(s, search, replace))[' '] == multiset(s)[' ']
  {
    PiecesOfReplaceWords(s, search, replace);
    PieceCount(s);
    PieceCount(ReplaceWords(s, search, replace));
  }

  /** No piece of t, trimmed, folds to any of the words. */
  ghost predicate Avoids(t: string, words: seq<string>)
  {
    forall p, w :: p in Pieces(t) && w in words ==> !EqualFold(TrimRightSpaces(p), w)
  }

  /** A replaced piece, trimmed, folds to none of the words the replacement avoids. */
  lemma PieceAvoids(p: string, done: seq<string>, search: string, replace: string)
    requires forall w :: w in done ==> !EqualFold(TrimRightSpaces(p), w)
    requires ' ' !in replace
    requires forall w :: w in done + [search] ==> !EqualFold(replace, w)
    ensures forall w :: w in done + [search] ==> !EqualFold(TrimRightSpaces(ReplacePiece(p, search, replace)), w)
  {
    if EqualFold(TrimRightSpaces(p), search) {
      TrimPiece(replace);
    } else {
      forall w | w in done + [search] ensures !EqualFold(TrimRightSpaces(p), w) {
        if w != search {
          assert w in done;
        }
      }
    }
  }

  /** One replacement pass removes its word and keeps out the words already removed. */
  lemma ReplaceAvoids(t: string, done: seq<string>, search: string, replace: string)
    requires Avoids(t, done) && ' ' !in replace
    requires forall w :: w in done + [search] ==> !EqualFold(replace, w)
    ensures Avoids(ReplaceWords(t, search, replace), done + [search])
  {
    var ps := Pieces(t);
    PiecesOfReplaceWords(t, search, replace);
    ReplaceAllAt(ps, search, replace);
    var qs := Pieces(ReplaceWords(t, search, replace));
    forall q, w | q in qs && w in done + [search]
      ensures !EqualFold(TrimRightSpaces(q), w)
    {
      var i :| 0 <= i < |qs| && qs[i] == q;
      assert ps[i] in ps;
      PieceAvoids(ps[i], done, search, replace);
    }
  }

  /** FilterWords leaves no listed word in any piece. */
  lemma {:induction false} FilterAvoids(s: string, done: seq<string>, todo: seq<string>, replace: string)
    requires Avoids(s, done) && ' ' !in replace
    requires forall w :: w in done + todo ==> !EqualFold(replace, w)
    ensures Avoids(FilterWords(s, todo, replace), done + todo)
    decreases |todo|
  {
    if todo != [] {
      assert done + todo == (done + [todo[0]]) + todo[1..];
      ReplaceAvoids(s, done, todo[0], replace);
      FilterAvoids(ReplaceWords(s, todo[0], replace), done + [todo[0]], todo[1..], replace);
    }
  }

  /** After profanityFilter, no space-delimited word equals a listed word, ignoring case. */
  lemma FilterRemovesProfanity(s: string)
    ensures Avoids(FilterWords(s, Profanity, Mask), Profanity)
  {
    assert [] + Profanity == Profanity;
    FilterAvoids(s, [], Profanity, Mask);
  }

  /** A piece ending in its only space is replaced on its own, whatever follows it. */
  lemma ReplaceWordsCons(p: string, rest: string, search: string, replace: string)
    requires p != [] && p[|p| - 1] == ' ' && ' ' !in p[..|p| - 1]
    ensures ReplaceWords(p + rest, search, replace) == ReplacePiece(p, search, replace) + ReplaceWords(rest, search, replace)
  {
    FirstSpaceOfPiece(p, rest);
    assert (p + rest)[..|p|] == p && (p + rest)[|p|..] == rest;
  }

  /** A word that folds to search is masked, keeping the space that ended it. */
  lemma MaskedWord(w: string, search: string, replace: string)
    requires ' ' !in w && EqualFold(w, search)
    ensures ReplacePiece(w + " ", search, replace) == replace + " "
    ensures ReplacePiece(w, search, replace) == replace
  {
    TrimPiece(w);
  }

  /** Only whole words match: a word with anything attached before or after it is kept. */
  lemma EmbeddedWordKept(pre: string, w: string, post: string, replace: string)
    requires pre + post != [] && ' ' !in pre + w + post
    ensures ReplacePiece(pre + w + post + " ", w, replace) == pre + w + post + " "
    ensures ReplacePiece(pre + w + post, w, replace) == pre + w + post
  {
    TrimPiece(pre + w + post);
  }

  // ---------------------------------------------------------------------------
  // Cases from the handler test
  // ---------------------------------------------------------------------------

  /** "keRfUfFle" is masked whatever its case. */
  lemma MixedCaseMasked()
    ensures ReplacePiece("keRfUfFle ", "kerfuffle", Mask) == "**** "
    ensures ReplacePiece("keRfUfFle", "kerfuffle", Mask) == "****"
  {
    MaskedWord("keRfUfFle", "kerfuffle", Mask);
  }

  /** Punctuation attached to a word keeps it from matching. */
  lemma PunctuationKept()
    ensures ReplacePiece("keRfUfFle! ", "kerfuffle", Mask) == "keRfUfFle! "
  {
    TrimPiece("keRfUfFle!");
  }

  /** 141 dots are rejected; 140 are accepted. */
  lemma DotsRejected()
    ensures ChirpTooLongFor(seq(141, _ => '.'))
    ensures !ChirpTooLongFor(seq(140, _ => '.'))
  {
    AsciiLimit(seq(141, _ => '.'));
    AsciiLimit(seq(140, _ => '.'));
  }
}
