/**
 * The string operations the client applies to form input: JavaScript's
 * `String.prototype.trim`, `split` on a single separator character, and the
 * tag pipeline `s.split(',').map(tag => tag.trim()).filter(tag => tag)`.
 */
module Text {

  /** The characters `trim` removes: ECMAScript's WhiteSpace and LineTerminator. */
  predicate IsWhitespace(c: char) {
    || c == ' ' || c == '\t' || c == '\n' || c == '\r'
    || c == '\U{000B}' || c == '\U{000C}' || c == '\U{00A0}' || c == '\U{FEFF}'
    || c == '\U{1680}' || ('\U{2000}' <= c <= '\U{200A}')
    || c == '\U{2028}' || c == '\U{2029}' || c == '\U{202F}' || c == '\U{205F}'
    || c == '\U{3000}'
  }

  /** A string made of whitespace only (the empty string included). */
  predicate Blank(s: string) {
    forall i | 0 <= i < |s| :: IsWhitespace(s[i])
  }

  /** Whitespace-only strings stay whitespace-only when put together. */
  lemma {:induction false} BlankConcat(a: string, b: string)
    requires Blank(a) && Blank(b)
    ensures Blank(a + b)
  {
    forall i | 0 <= i < |a + b| ensures IsWhitespace((a + b)[i]) {
      if i < |a| {
        assert (a + b)[i] == a[i];
      } else {
        assert (a + b)[i] == b[i - |a|];
      }
    }
  }

  /** Drops leading whitespace; what remains is a suffix of `s`. */
  function TrimStart(s: string): (r: string)
    ensures |r| <= |s| && r == s[|s| - |r|..]
    ensures r == [] || !IsWhitespace(r[0])
  {
    if s != [] && IsWhitespace(s[0]) then
      var r := TrimStart(s[1..]);
      assert s[1..][|s| - 1 - |r|..] == s[|s| - |r|..];
      r
    else
      s
  }

  /** What `TrimStart` drops is whitespace only. */
  lemma {:induction false} TrimStartDropsBlank(s: string)
    ensures Blank(s[..|s| - |TrimStart(s)|])
  {
    if s != [] && IsWhitespace(s[0]) {
      var t := s[1..];
      var k := |t| - |TrimStart(t)|;
      TrimStartDropsBlank(t);
      assert s[..k + 1] == [s[0]] + t[..k];
      BlankConcat([s[0]], t[..k]);
    } else {
      assert s[..0] == [];
    }
  }

  /** Drops trailing whitespace; what remains is a prefix of `s`. */
  function TrimEnd(s: string): (r: string)
    ensures |r| <= |s| && r == s[..|r|]
    ensures r == [] || !IsWhitespace(r[|r| - 1])
  {
    if s != [] && IsWhitespace(s[|s| - 1]) then
      var r := TrimEnd(s[..|s| - 1]);
      assert s[..|s| - 1][..|r|] == s[..|r|];
      r
    else
      s
  }

  /** What `TrimEnd` drops is whitespace only. */
  lemma {:induction false} TrimEndDropsBlank(s: string)
    ensures Blank(s[|TrimEnd(s)|..])
  {
    if s != [] && IsWhitespace(s[|s| - 1]) {
      var t := s[..|s| - 1];
      var n := |TrimEnd(t)|;
      TrimEndDropsBlank(t);
      assert s[n..] == t[n..] + [s[|s| - 1]];
      BlankConcat(t[n..], [s[|s| - 1]]);
    } else {
      assert s[|s|..] == [];
    }
  }

  /** `s.trim()`: both ends stripped of whitespace. */
  function Trim(s: string): (r: string)
    ensures |r| <= |s|
  {
    TrimEnd(TrimStart(s))
  }

  /**
   * The trimmed string is a slice of the input that neither starts nor ends
   * with whitespace, so every character of it occurs in the input.
   */
  lemma {:induction false} TrimShape(s: string)
    ensures var r := Trim(s);
      && (r == [] || (!IsWhitespace(r[0]) && !IsWhitespace(r[|r| - 1])))
      && forall c | c in r :: c in s
  {
    TrimEndsAreText(s);
    TrimKeepsChars(s);
  }

  lemma {:induction false} TrimEndsAreText(s: string)
    ensures var r := Trim(s);
      r == [] || (!IsWhitespace(r[0]) && !IsWhitespace(r[|r| - 1]))
  {
    var t := TrimStart(s);
    var r := TrimEnd(t);
    if r != [] {
      assert r[0] == t[0];
    }
  }

  /** Every character of the trimmed string occurs in the input. */
  lemma {:induction false} TrimKeepsChars(s: string)
    ensures forall c | c in Trim(s) :: c in s
  {
    var t := TrimStart(s);
    var r := TrimEnd(t);
    var k := |s| - |t|;
    assert r == s[k..k + |r|];
    SliceChars(s, k, k + |r|);
  }

  /** Every character of a slice occurs in the whole. */
  lemma {:induction false} SliceChars(s: string, i: nat, j: nat)
    requires i <= j <= |s|
    ensures forall c | c in s[i..j] :: c in s
  {
    forall c | c in s[i..j] ensures c in s {
      var k :| 0 <= k < j - i && s[i..j][k] == c;
      assert s[i + k] == c;
    }
  }

  /**
   * The trimmed string is what lies between a whitespace-only prefix and a
   * whitespace-only suffix of the input.
   */
  lemma {:induction false} TrimIsSlice(s: string)
    ensures var r := Trim(s);
      exists i | 0 <= i <= |s| - |r| :: r == s[i..i + |r|] && Blank(s[..i]) && Blank(s[i + |r|..])
  {
    var t := TrimStart(s);
    var r := TrimEnd(t);
    var i := |s| - |t|;
    TrimStartDropsBlank(s);
    TrimEndDropsBlank(t);
    assert t == s[i..];
    assert r == s[i..i + |r|] by { assert r == t[..|r|]; }
    assert s[i + |r|..] == t[|r|..];
    assert r == Trim(s);
  }

  /** `s.trim()` is falsy exactly when `s` is made of whitespace only. */
  lemma {:induction false} TrimEmptyIffBlank(s: string)
    ensures Trim(s) == [] <==> Blank(s)
  {
    if Trim(s) == [] {
      BlankOfTrimEmpty(s);
    }
    if Blank(s) {
      TrimEmptyOfBlank(s);
    }
  }

  lemma {:induction false} BlankOfTrimEmpty(s: string)
    requires Trim(s) == []
    ensures Blank(s)
  {
    var t := TrimStart(s);
    var k := |s| - |t|;
    TrimStartDropsBlank(s);
    TrimEndDropsBlank(t);
    assert TrimEnd(t) == [];
    assert t[0..] == t;
    assert Blank(t);
    assert Blank(s[..k]);
    BlankConcat(s[..k], t);
    assert s == s[..k] + t;
  }

  lemma {:induction false} TrimEmptyOfBlank(s: string)
    requires Blank(s)
    ensures Trim(s) == []
  {
    var t := TrimStart(s);
    var k := |s| - |t|;
    BlankSuffix(s, k);
    assert t == s[k..];
    BlankNoLeadingText(t);
  }

  /** A suffix of a whitespace-only string is whitespace-only. */
  lemma {:induction false} BlankSuffix(s: string, k: nat)
    requires Blank(s) && k <= |s|
    ensures Blank(s[k..])
  {
    forall i | 0 <= i < |s| - k ensures IsWhitespace(s[k..][i]) {
      assert s[k..][i] == s[k + i];
    }
  }

  /** A whitespace-only string that does not start with whitespace is empty. */
  lemma {:induction false} BlankNoLeadingText(t: string)
    requires Blank(t) && (t == [] || !IsWhitespace(t[0]))
    ensures t == [] && TrimEnd(t) == []
  {
  }

  /** Trimming an already trimmed string changes nothing. */
  lemma {:induction false} TrimIdempotent(s: string)
    ensures Trim(Trim(s)) == Trim(s)
  {
    TrimShape(s);
  }

  /** `s.split(sep)`: the pieces between separators, in order; never empty. */
  function Split(s: string, sep: char): (pieces: seq<string>)
    ensures |pieces| >= 1
  {
    if s == [] then [[]]
    else
      var rest := Split(s[1..], sep);
      if s[0] == sep then [[]] + rest
      else [[s[0]] + rest[0]] + rest[1..]
  }

  /** No piece of a split holds the separator. */
  lemma {:induction false} SplitPiecesHaveNoSep(s: string, sep: char)
    ensures forall p | p in Split(s, sep) :: sep !in p
  {
    if s != [] {
      SplitPiecesHaveNoSep(s[1..], sep);
      var rest := Split(s[1..], sep);
      if s[0] != sep {
        assert rest[0] in rest;
        forall p | p in Split(s, sep) ensures sep !in p {
          if p != [s[0]] + rest[0] {
            assert p in rest[1..];
            assert forall q | q in rest[1..] :: q in rest;
          }
        }
      }
    }
  }

  /** `pieces.join(sep)`. */
  function Join(pieces: seq<string>, sep: char): (s: string)
  {
    if pieces == [] then []
    else if |pieces| == 1 then pieces[0]
    else pieces[0] + [sep] + Join(pieces[1..], sep)
  }

  /** Splitting loses nothing: joining the pieces back gives the input. */
  lemma {:induction false} JoinSplit(s: string, sep: char)
    ensures Join(Split(s, sep), sep) == s
  {
    if s != [] {
      JoinSplit(s[1..], sep);
      var rest := Split(s[1..], sep);
      if s[0] != sep && |rest| > 1 {
        assert [s[0]] + rest[0] + [sep] + Join(rest[1..], sep)
            == [s[0]] + (rest[0] + [sep] + Join(rest[1..], sep));
      }
    }
  }

  /** Splitting is determined by the pieces: a separator-free list of pieces is recovered from its join. */
  lemma {:induction false} SplitJoin(pieces: seq<string>, sep: char)
    requires |pieces| >= 1
    requires forall p | p in pieces :: sep !in p
    ensures Split(Join(pieces, sep), sep) == pieces
    decreases |pieces|, |pieces[0]|
  {
    var p := pieces[0];
    if p == [] {
      if |pieces| > 1 {
        var rest := pieces[1..];
        assert forall q | q in rest :: q in pieces;
        SplitJoin(rest, sep);
        assert Join(pieces, sep) == [sep] + Join(rest, sep);
        SplitCons(sep, Join(rest, sep), sep);
        assert pieces == [[]] + rest;
      } else {
        assert pieces == [[]];
      }
    } else {
      assert p[0] != sep by { assert p[0] in p; }
      var tail := [p[1..]] + pieces[1..];
      forall q | q in tail ensures sep !in q {
        if q == p[1..] {
          assert forall c | c in p[1..] :: c in p;
        } else {
          assert q in pieces;
        }
      }
      SplitJoin(tail, sep);
      JoinFirstChar(pieces, sep);
      SplitCons(p[0], Join(tail, sep), sep);
      assert [p[0]] + tail[0] == p;
      assert pieces == [p] + tail[1..];
    }
  }

  /** Moving the first character of the first piece out in front of the join. */
  lemma {:induction false} JoinFirstChar(pieces: seq<string>, sep: char)
    requires |pieces| >= 1 && pieces[0] != []
    ensures Join(pieces, sep) == [pieces[0][0]] + Join([pieces[0][1..]] + pieces[1..], sep)
  {
    var p := pieces[0];
    var tail := [p[1..]] + pieces[1..];
    assert p == [p[0]] + p[1..];
    if |pieces| > 1 {
      assert tail[1..] == pieces[1..];
      var j := Join(pieces[1..], sep);
      assert ([p[0]] + p[1..]) + [sep] + j == [p[0]] + (p[1..] + [sep] + j);
    }
  }

  lemma {:induction false} SplitConcat(a: string, b: string, sep: char)
    ensures Split(a + [sep] + b, sep) == Split(a, sep) + Split(b, sep)
  {
    if a == [] {
      assert a + [sep] + b == [sep] + b;
      SplitCons(sep, b, sep);
    } else {
      var c, a' := a[0], a[1..];
      assert a + [sep] + b == [c] + (a' + [sep] + b);
      assert a == [c] + a';
      SplitConcat(a', b, sep);
      SplitConcatStep(c, a', b, sep);
    }
  }

  /** The inductive step of `SplitConcat`: one more character in front of the left side. */
  lemma {:induction false} SplitConcatStep(c: char, a: string, b: string, sep: char)
    requires Split(a + [sep] + b, sep) == Split(a, sep) + Split(b, sep)
    ensures Split([c] + (a + [sep] + b), sep) == Split([c] + a, sep) + Split(b, sep)
  {
    SplitCons(c, a + [sep] + b, sep);
    SplitCons(c, a, sep);
    if c == sep {
      ClosePieceFirst(Split(a, sep), Split(b, sep));
    } else {
      PrependToFirstPiece([c], Split(a, sep), Split(b, sep));
    }
  }

  /** Starting with an empty piece commutes with appending more pieces. */
  lemma {:induction false} ClosePieceFirst(r: seq<string>, q: seq<string>)
    ensures [[]] + (r + q) == ([[]] + r) + q
  {
  }

  /** Extending the first piece of a list of pieces commutes with appending more pieces. */
  lemma {:induction false} PrependToFirstPiece(c: string, r: seq<string>, q: seq<string>)
    requires |r| >= 1
    ensures [c + (r + q)[0]] + (r + q)[1..] == ([c + r[0]] + r[1..]) + q
  {
    assert (r + q)[0] == r[0];
    assert (r + q)[1..] == r[1..] + q;
  }

  /** One step of `Split`: the first character either closes a piece or extends the first piece. */
  lemma {:induction false} SplitCons(c: char, t: string, sep: char)
    ensures Split([c] + t, sep)
         == if c == sep then [[]] + Split(t, sep)
            else [[c] + Split(t, sep)[0]] + Split(t, sep)[1..]
  {
    assert ([c] + t)[0] == c && ([c] + t)[1..] == t;
  }

  /** `.map(tag => tag.trim())` */
  function TrimEach(pieces: seq<string>): (r: seq<string>)
    ensures |r| == |pieces|
    ensures forall i {:trigger r[i]} | 0 <= i < |r| :: r[i] == Trim(pieces[i])
  {
    if pieces == [] then []
    else
      var rest := TrimEach(pieces[1..]);
      assert forall i | 1 <= i < |pieces| :: pieces[i] == pieces[1..][i - 1];
      [Trim(pieces[0])] + rest
  }

  /** Trimming each piece commutes with concatenation. */
  lemma {:induction false} TrimEachConcat(a: seq<string>, b: seq<string>)
    ensures TrimEach(a + b) == TrimEach(a) + TrimEach(b)
  {
    if a == [] {
      assert a + b == b;
    } else {
      assert (a + b)[0] == a[0];
      assert (a + b)[1..] == a[1..] + b;
      TrimEachConcat(a[1..], b);
      assert [Trim(a[0])] + TrimEach(a[1..]) + TrimEach(b) == [Trim(a[0])] + (TrimEach(a[1..]) + TrimEach(b));
    }
  }

  /** `.filter(tag => tag)`: keeps the non-empty strings, in order. */
  function DropEmpty(pieces: seq<string>): (r: seq<string>)
    ensures |r| <= |pieces|
    ensures forall t :: t in r <==> t in pieces && t != []
  {
    if pieces == [] then []
    else if pieces[0] == [] then DropEmpty(pieces[1..])
    else [pieces[0]] + DropEmpty(pieces[1..])
  }

  /** Filtering keeps relative order: it distributes over concatenation. */
  lemma {:induction false} DropEmptyConcat(a: seq<string>, b: seq<string>)
    ensures DropEmpty(a + b) == DropEmpty(a) + DropEmpty(b)
  {
    if a != [] {
      assert (a + b)[0] == a[0];
      assert (a + b)[1..] == a[1..] + b;
      DropEmptyConcat(a[1..], b);
      if a[0] != [] {
        assert [a[0]] + DropEmpty(a[1..]) + DropEmpty(b) == [a[0]] + (DropEmpty(a[1..]) + DropEmpty(b));
      }
    } else {
      assert a + b == b;
    }
  }

  /** The tag list a comma-separated tags field is turned into. */
  function ParseTags(s: string): (tags: seq<string>)
    ensures |tags| <= |Split(s, ',')|
    ensures forall t | t in tags :: t != []
  {
    DropEmpty(TrimEach(Split(s, ',')))
  }

  /** Every parsed tag is non-empty, trimmed, holds no comma, and is the trim of a piece of the input. */
  lemma {:induction false} ParseTagsWellFormed(s: string)
    ensures forall t | t in ParseTags(s) ::
      && t != []
      && Trim(t) == t
      && ',' !in t
      && exists p :: p in Split(s, ',') && Trim(p) == t
  {
    var pieces := Split(s, ',');
    SplitPiecesHaveNoSep(s, ',');
    forall t | t in ParseTags(s)
      ensures t != [] && Trim(t) == t && ',' !in t
      ensures exists p :: p in pieces && Trim(p) == t
    {
      assert t in TrimEach(pieces);
      var i :| 0 <= i < |pieces| && TrimEach(pieces)[i] == t;
      assert pieces[i] in pieces;
      TrimIdempotent(pieces[i]);
      TrimShape(pieces[i]);
    }
  }

  /** Tags are parsed piece by piece, in input order. */
  lemma {:induction false} ParseTagsConcat(a: string, b: string)
    ensures ParseTags(a + [','] + b) == ParseTags(a) + ParseTags(b)
  {
    SplitConcat(a, b, ',');
    var pa, pb := Split(a, ','), Split(b, ',');
    TrimEachConcat(pa, pb);
    DropEmptyConcat(TrimEach(pa), TrimEach(pb));
  }

  /** Input without a comma gives its trim as the only tag, or no tag when blank. */
  lemma {:induction false} ParseTagsSingle(s: string)
    requires ',' !in s
    ensures ParseTags(s) == if Trim(s) == [] then [] else [Trim(s)]
  {
    SplitJoin([s], ',');
    assert Join([s], ',') == s;
    var trimmed := TrimEach([s]);
    assert trimmed == [Trim(s)];
    assert DropEmpty(trimmed) == if Trim(s) == [] then [] else [Trim(s)] by {
      assert trimmed[1..] == [];
    }
  }

  /** A tags field of commas and whitespace only yields no tag at all. */
  lemma {:induction false} ParseTagsOfSeparatorsOnly(s: string)
    requires forall i | 0 <= i < |s| :: s[i] == ',' || IsWhitespace(s[i])
    ensures ParseTags(s) == []
  {
    var pieces := Split(s, ',');
    JoinSplit(s, ',');
    SplitPiecesHaveNoSep(s, ',');
    var trimmed := TrimEach(pieces);
    forall i | 0 <= i < |pieces| ensures trimmed[i] == [] {
      var p := pieces[i];
      JoinedPieceChars(pieces, ',', p);
      assert Blank(p) by {
        forall j | 0 <= j < |p| ensures IsWhitespace(p[j]) {
          assert p[j] in p;
        }
      }
      TrimEmptyIffBlank(p);
    }
    DropEmptyOfEmpties(trimmed);
  }

  /** Filtering a list of empty strings leaves nothing. */
  lemma {:induction false} DropEmptyOfEmpties(pieces: seq<string>)
    requires forall i | 0 <= i < |pieces| :: pieces[i] == []
    ensures DropEmpty(pieces) == []
  {
    if pieces != [] {
      DropEmptyOfEmpties(pieces[1..]);
    }
  }

  /** Every character of a joined piece occurs in the join. */
  lemma {:induction false} JoinedPieceChars(pieces: seq<string>, sep: char, p: string)
    requires p in pieces
    ensures forall c | c in p :: c in Join(pieces, sep)
  {
    if |pieces| > 1 && p != pieces[0] {
      JoinedPieceChars(pieces[1..], sep, p);
    }
  }

  /** "," is not blank, so it passes a non-empty check, yet it parses to no tag. */
  lemma {:induction false} CommaIsNotBlankButHasNoTags()
    ensures Trim(",") != []
    ensures ParseTags(",") == []
  {
    CommaIsNotBlank();
    TrimEmptyIffBlank(",");
    CommaHasNoTags();
  }

  lemma {:induction false} CommaIsNotBlank()
    ensures !Blank(",")
  {
    var s := ",";
    assert s[0] == ',';
  }

  lemma {:induction false} CommaHasNoTags()
    ensures ParseTags(",") == []
  {
    var s := ",";
    assert forall i | 0 <= i < |s| :: s[i] == ',';
    ParseTagsOfSeparatorsOnly(s);
  }
}
