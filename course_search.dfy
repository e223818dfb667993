/** The course-list box of the graph page: on search the typed text is
    upper-cased, split on runs of commas and white space, each piece trimmed,
    and the empty pieces dropped; the codes and the "include unlocked" flag
    are handed on together. */
module CourseSearch {
  import opened Text
  import opened Lists

  /** A character of the class `[,\s]`. */
  predicate IsSeparator(c: char) {
    c == ',' || IsWhitespace(c)
  }

  /** `s` with its leading run of separators dropped. */
  function SkipSeparators(s: string): (r: string)
    ensures |r| <= |s| && r == s[|s| - |r|..]
    ensures r == [] || !IsSeparator(r[0])
    ensures forall i :: 0 <= i < |s| - |r| ==> IsSeparator(s[i])
  {
    if s != [] && IsSeparator(s[0]) then SkipSeparators(s[1..]) else s
  }

  /** `s.split(/[,\s]+/)`: the text between maximal runs of separators, with
      an empty first piece when `s` starts with a separator and an empty last
      piece when it ends with one (`""` gives `[""]`). */
  function Pieces(s: string): (r: seq<string>)
    ensures |r| >= 1
    decreases |s|
  {
    if s == [] then [[]]
    else if IsSeparator(s[0]) then [[]] + Pieces(SkipSeparators(s[1..]))
    else
      var rest := Pieces(s[1..]);
      [[s[0]] + rest[0]] + rest[1..]
  }

  /** `.map((c) => c.trim())`. */
  function TrimAll(ps: seq<string>): seq<string> {
    seq(|ps|, k requires 0 <= k < |ps| => Trim(ps[k]))
  }

  /** `.filter((c) => c.length > 0)`. */
  function NonEmpty(ps: seq<string>): (r: seq<string>)
    ensures forall t :: t in r <==> t in ps && t != []
    ensures |r| <= |ps|
  {
    if ps == [] then []
    else
      assert forall t :: t in ps <==> t == ps[0] || t in ps[1..];
      (if ps[0] == [] then [] else [ps[0]]) + NonEmpty(ps[1..])
  }

  /** The tokenizer of `handleSearch`. */
  function Tokenize(input: string): seq<string> {
    NonEmpty(TrimAll(Pieces(Upper(input))))
  }

  /** What `onSearch` receives. */
  datatype Search = Search(courses: seq<string>, includeUnlocked: bool)

  /** `handleSearch`: the tokens, with the checkbox's value passed through
      unchanged. */
  function HandleSearch(input: string, includeUnlocked: bool): (r: Search)
    ensures r.includeUnlocked == includeUnlocked
    ensures forall t :: t in r.courses ==> t != [] && IsUpperCase(t) && NoSeparator(t)
    ensures Concat(r.courses) == Strip(Upper(input))
    ensures input != [] && NoSeparator(input) ==> r.courses == [Upper(input)]
  {
    TokensWellFormed(input);
    TokensConcat(input);
    TokenizeWord(input);
    Search(Tokenize(input), includeUnlocked)
  }

  // ---------------------------------------------------------------------------
  // Reference definitions: the text with its separators removed
  // ---------------------------------------------------------------------------

  /** The strings of `ps` joined with nothing in between. */
  function Concat(ps: seq<string>): string {
    if ps == [] then [] else ps[0] + Concat(ps[1..])
  }

  /** `s` with every separator removed. */
  function Strip(s: string): string {
    if s == [] then [] else (if IsSeparator(s[0]) then [] else [s[0]]) + Strip(s[1..])
  }

  predicate NoSeparator(t: string) {
    forall i :: 0 <= i < |t| ==> !IsSeparator(t[i])
  }

  // ---------------------------------------------------------------------------
  // Lemmas
  // ---------------------------------------------------------------------------

  /** Exactly the characters of `s` that are not separators survive Strip. */
  lemma {:induction false} StripMembers(s: string)
    ensures forall c :: c in Strip(s) <==> c in s && !IsSeparator(c)
  {
    if s != [] {
      StripMembers(s[1..]);
      assert forall c :: c in s <==> c == s[0] || c in s[1..];
    }
  }

  /** A run of separators contributes nothing to Strip. */
  lemma {:induction false} StripSkip(s: string)
    ensures Strip(SkipSeparators(s)) == Strip(s)
  {
    if s != [] && IsSeparator(s[0]) {
      StripSkip(s[1..]);
    }
  }

  /** Joining the split pieces gives the text without its separators: the
      pieces are the text's non-separator characters, in order. */
  lemma {:induction false} PiecesConcat(s: string)
    ensures Concat(Pieces(s)) == Strip(s)
    decreases |s|
  {
    if s == [] {
    } else if IsSeparator(s[0]) {
      var t := SkipSeparators(s[1..]);
      PiecesConcat(t);
      StripSkip(s[1..]);
      assert Concat(Pieces(s)) == [] + Concat(Pieces(t));
    } else {
      var rest := Pieces(s[1..]);
      PiecesConcat(s[1..]);
      assert Concat(rest) == rest[0] + Concat(rest[1..]);
      calc {
        Concat(Pieces(s));
        ([s[0]] + rest[0]) + Concat(rest[1..]);
        [s[0]] + (rest[0] + Concat(rest[1..]));
        [s[0]] + Strip(s[1..]);
      }
    }
  }

  /** Every character of every piece appears in the join. */
  lemma {:induction false} ConcatHas(ps: seq<string>, k: int, i: int)
    requires 0 <= k < |ps| && 0 <= i < |ps[k]|
    ensures ps[k][i] in Concat(ps)
  {
    if k == 0 {
      assert Concat(ps)[i] == ps[0][i];
    } else {
      ConcatHas(ps[1..], k - 1, i);
      assert Concat(ps) == ps[0] + Concat(ps[1..]);
    }
  }

  /** Dropping empty strings does not change the join. */
  lemma {:induction false} NonEmptyConcat(ps: seq<string>)
    ensures Concat(NonEmpty(ps)) == Concat(ps)
  {
    if ps != [] {
      NonEmptyConcat(ps[1..]);
      var rest := NonEmpty(ps[1..]);
      if ps[0] != [] {
        assert ([ps[0]] + rest)[1..] == rest;
      } else {
        assert NonEmpty(ps) == [] + rest == rest;
      }
    }
  }

  /** Trimming strings without white space changes nothing. */
  lemma {:induction false} TrimAllIdentity(ps: seq<string>)
    requires forall p :: p in ps ==> NoSeparator(p)
    ensures TrimAll(ps) == ps
  {
    forall k | 0 <= k < |ps| ensures Trim(ps[k]) == ps[k] {
      assert ps[k] in ps;
      TrimNoWhitespace(ps[k]);
    }
  }

  /** Upper-casing leaves no lower-case letter. */
  lemma UpperIsUpperCase(s: string)
    ensures IsUpperCase(Upper(s))
  {
    forall i | 0 <= i < |s| ensures !('a' <= Upper(s)[i] <= 'z') {
      assert Upper(s)[i] == UpperChar(s[i]);
    }
  }

  /** The pieces of the upper-cased text hold no separator and no
      lower-case letter, so trimming them changes nothing. */
  lemma PiecesClean(input: string)
    ensures forall p :: p in Pieces(Upper(input)) ==> NoSeparator(p) && IsUpperCase(p)
  {
    var u := Upper(input);
    var ps := Pieces(u);
    PiecesConcat(u);
    StripMembers(u);
    UpperIsUpperCase(input);
    forall k, i | 0 <= k < |ps| && 0 <= i < |ps[k]|
      ensures !IsSeparator(ps[k][i]) && !('a' <= ps[k][i] <= 'z')
    {
      ConcatHas(ps, k, i);
      var j :| 0 <= j < |u| && u[j] == ps[k][i];
    }
  }

  /** Every token is non-empty, upper-case and free of commas and white
      space. */
  lemma TokensWellFormed(input: string)
    ensures forall t :: t in Tokenize(input) ==> t != [] && IsUpperCase(t) && NoSeparator(t)
  {
    PiecesClean(input);
    TrimAllIdentity(Pieces(Upper(input)));
  }

  /** The tokens, joined, are the upper-cased input with every comma and
      white-space character removed: no character is lost, added or
      reordered. */
  lemma TokensConcat(input: string)
    ensures Concat(Tokenize(input)) == Strip(Upper(input))
  {
    var ps := Pieces(Upper(input));
    PiecesClean(input);
    TrimAllIdentity(ps);
    NonEmptyConcat(ps);
    PiecesConcat(Upper(input));
  }

  /** Strip leaves nothing exactly when every character is a separator. */
  lemma {:induction false} StripEmpty(s: string)
    ensures Strip(s) == [] <==> forall i :: 0 <= i < |s| ==> IsSeparator(s[i])
  {
    if s != [] {
      StripEmpty(s[1..]);
      assert forall i :: 1 <= i < |s| ==> s[i] == s[1..][i - 1];
    }
  }

  /** Non-empty strings join to the empty string only when there are none. */
  lemma ConcatEmpty(ts: seq<string>)
    requires forall t :: t in ts ==> t != []
    ensures Concat(ts) == [] <==> ts == []
  {
    if ts != [] {
      assert ts[0] in ts;
      assert |Concat(ts)| >= |ts[0]|;
    }
  }

  /** Upper-casing neither makes nor unmakes a separator. */
  lemma UpperSeparators(s: string)
    ensures forall i :: 0 <= i < |s| ==> (IsSeparator(Upper(s)[i]) <==> IsSeparator(s[i]))
    ensures (forall i :: 0 <= i < |s| ==> IsSeparator(Upper(s)[i])) <==> (forall i :: 0 <= i < |s| ==> IsSeparator(s[i]))
  {
    forall i | 0 <= i < |s| ensures IsSeparator(Upper(s)[i]) <==> IsSeparator(s[i]) {
      var c := s[i];
      if 'a' <= c <= 'z' {
        assert !IsWhitespace(c) && !IsWhitespace(UpperChar(c));
      }
    }
  }

  /** The search yields no course exactly when the input is made of commas
      and white space only (the empty input included). */
  lemma NoTokensIffSeparatorsOnly(input: string)
    ensures Tokenize(input) == [] <==> forall i :: 0 <= i < |input| ==> IsSeparator(input[i])
  {
    var ts := Tokenize(input);
    var u := Upper(input);
    var allU := forall i :: 0 <= i < |u| ==> IsSeparator(u[i]);
    var allInput := forall i :: 0 <= i < |input| ==> IsSeparator(input[i]);
    assert ts == [] <==> Strip(u) == [] by {
      TokensConcat(input);
      TokensWellFormed(input);
      ConcatEmpty(ts);
    }
    assert Strip(u) == [] <==> allU by {
      StripEmpty(u);
    }
    assert allU <==> allInput by {
      UpperSeparators(input);
    }
  }

  // ---------------------------------------------------------------------------
  // Where the tokens split
  // ---------------------------------------------------------------------------

  /** A word without separators is a single piece. */
  lemma {:induction false} PiecesWord(w: string)
    requires NoSeparator(w)
    ensures Pieces(w) == [w]
  {
    if w != [] {
      assert NoSeparator(w[1..]) by {
        assert forall i :: 0 <= i < |w[1..]| ==> w[1..][i] == w[i + 1];
      }
      PiecesWord(w[1..]);
      assert !IsSeparator(w[0]);
      assert [w[0]] + w[1..] == w;
    }
  }

  /** Skipping the leading separators of a text whose last character is not
      one commutes with appending more text. */
  lemma {:induction false} SkipAppend(x: string, y: string)
    requires x != [] && !IsSeparator(x[|x| - 1])
    ensures SkipSeparators(x + y) == SkipSeparators(x) + y
  {
    assert (x + y)[0] == x[0];
    if IsSeparator(x[0]) {
      assert |x| >= 2;
      assert (x + y)[1..] == x[1..] + y;
      assert x[1..][|x[1..]| - 1] == x[|x| - 1];
      SkipAppend(x[1..], y);
    }
  }

  /** After a leading separator, the skipped tail of a text ending in a
      non-separator is shorter, non-empty, still ends in a non-separator,
      and absorbs anything appended. */
  lemma SkipTail(a: string, y: string)
    requires a != [] && IsSeparator(a[0]) && !IsSeparator(a[|a| - 1])
    ensures var t := SkipSeparators(a[1..]);
            t != [] && !IsSeparator(t[|t| - 1]) && |t| < |a| && SkipSeparators(a[1..] + y) == t + y
  {
    var rest := a[1..];
    assert rest[|rest| - 1] == a[|a| - 1];
    SkipAppend(rest, y);
    var t := SkipSeparators(rest);
    assert !IsSeparator(rest[|rest| - 1]);
    assert t != [] && t[|t| - 1] == rest[|rest| - 1];
  }

  /** A separator after a text that is empty or ends in a non-separator ends
      that text's last piece: the pieces of the whole are the pieces of the
      front followed by those of the back with its leading separators
      skipped. */
  lemma {:induction false} PiecesSplit(a: string, c: char, b: string)
    requires IsSeparator(c) && (a == [] || !IsSeparator(a[|a| - 1]))
    ensures Pieces(a + ([c] + b)) == Pieces(a) + Pieces(SkipSeparators(b))
    decreases |a|, 1
  {
    if a == [] {
      var cb := [c] + b;
      EmptyAppend(cb);
      HeadTailAppend([c], b);
      PiecesAtSeparator(cb);
    } else if IsSeparator(a[0]) {
      PiecesSplitAfterSeparator(a, c, b);
    } else {
      PiecesSplitAfterChar(a, c, b);
    }
  }

  /** `PiecesSplit` when the front starts with a separator. */
  lemma {:induction false} PiecesSplitAfterSeparator(a: string, c: char, b: string)
    requires IsSeparator(c) && a != [] && !IsSeparator(a[|a| - 1]) && IsSeparator(a[0])
    ensures Pieces(a + ([c] + b)) == Pieces(a) + Pieces(SkipSeparators(b))
    decreases |a|, 0
  {
    var cb := [c] + b;
    var rest := a[1..];
    var q := Pieces(SkipSeparators(b));
    HeadTailAppend(a, cb);
    PiecesAtSeparator(a + cb);
    SkipTail(a, cb);
    var t := SkipSeparators(rest);
    PiecesSplit(t, c, b);
    PiecesAtSeparator(a);
    AppendAssoc([[]], Pieces(t), q);
  }

  /** `PiecesSplit` when the front starts with a character of a word. */
  lemma {:induction false} PiecesSplitAfterChar(a: string, c: char, b: string)
    requires IsSeparator(c) && a != [] && !IsSeparator(a[|a| - 1]) && !IsSeparator(a[0])
    ensures Pieces(a + ([c] + b)) == Pieces(a) + Pieces(SkipSeparators(b))
    decreases |a|, 0
  {
    var cb := [c] + b;
    var rest := a[1..];
    var q := Pieces(SkipSeparators(b));
    HeadTailAppend(a, cb);
    PiecesAtChar(a + cb);
    if rest != [] {
      assert rest[|rest| - 1] == a[|a| - 1];
    }
    PiecesSplit(rest, c, b);
    PiecesAtChar(a);
    var pr := Pieces(rest);
    HeadTailAppend(pr, q);
    AppendAssoc([[a[0]] + pr[0]], pr[1..], q);
  }

  /** One step of the split at a separator. */
  lemma PiecesAtSeparator(s: string)
    requires s != [] && IsSeparator(s[0])
    ensures Pieces(s) == [[]] + Pieces(SkipSeparators(s[1..]))
  {
  }

  /** One step of the split at a character of a word. */
  lemma PiecesAtChar(s: string)
    requires s != [] && !IsSeparator(s[0])
    ensures Pieces(s) == [[s[0]] + Pieces(s[1..])[0]] + Pieces(s[1..])[1..]
  {
  }

  /** Dropping empty strings distributes over concatenation. */
  lemma {:induction false} NonEmptyAppend(p: seq<string>, q: seq<string>)
    ensures NonEmpty(p + q) == NonEmpty(p) + NonEmpty(q)
  {
    if p != [] {
      assert (p + q)[0] == p[0] && (p + q)[1..] == p[1..] + q;
      NonEmptyAppend(p[1..], q);
    } else {
      assert p + q == q;
    }
  }

  /** Leading separators produce only an empty piece, which the filter drops. */
  lemma NonEmptySkip(b: string)
    ensures NonEmpty(Pieces(SkipSeparators(b))) == NonEmpty(Pieces(b))
  {
    if b != [] && IsSeparator(b[0]) {
      var rest := Pieces(SkipSeparators(b[1..]));
      assert ([[]] + rest)[0] == [] && ([[]] + rest)[1..] == rest;
    }
  }

  /** Any separator ends the non-empty pieces before it and starts those
      after it, whatever surrounds it. */
  lemma {:induction false} NonEmptyPiecesSplit(a: string, c: char, b: string)
    requires IsSeparator(c)
    ensures NonEmpty(Pieces(a + ([c] + b))) == NonEmpty(Pieces(a)) + NonEmpty(Pieces(b))
    decreases |a|
  {
    if a == [] || !IsSeparator(a[|a| - 1]) {
      PiecesSplit(a, c, b);
      NonEmptyAppend(Pieces(a), Pieces(SkipSeparators(b)));
      NonEmptySkip(b);
    } else {
      // The last separator of `a` splits it into `front` and nothing.
      var front := a[..|a| - 1];
      var d := a[|a| - 1];
      var cb := [c] + b;
      var none := NonEmpty(Pieces(front));
      assert NonEmpty(Pieces([])) == [];
      InitLast(a);
      AppendAssoc(front, [d], cb);
      NonEmptyPiecesSplit(front, d, cb);
      AppendEmpty([d]);
      NonEmptyPiecesSplit(front, d, []);
      AppendEmpty(none);
      EmptyAppend(cb);
      NonEmptyPiecesSplit([], c, b);
      EmptyAppend(NonEmpty(Pieces(b)));
    }
  }

  /** Trimming changes none of the pieces, so the tokens are the non-empty
      pieces of the upper-cased text. */
  lemma TokenizeIsNonEmptyPieces(input: string)
    ensures Tokenize(input) == NonEmpty(Pieces(Upper(input)))
  {
    PiecesClean(input);
    TrimAllIdentity(Pieces(Upper(input)));
  }

  /** Upper-casing works character by character. */
  lemma UpperAppend(a: string, b: string)
    ensures Upper(a + b) == Upper(a) + Upper(b)
  {
    assert forall i :: 0 <= i < |a + b| ==> Upper(a + b)[i] == (Upper(a) + Upper(b))[i] by {
      forall i | 0 <= i < |a + b| ensures Upper(a + b)[i] == (Upper(a) + Upper(b))[i] {
        if i < |a| {
          assert (a + b)[i] == a[i];
        } else {
          assert (a + b)[i] == b[i - |a|];
        }
      }
    }
  }

  /** A non-empty word without commas or white space is one token: itself,
      upper-cased. */
  lemma TokenizeWord(w: string)
    ensures w != [] && NoSeparator(w) ==> Tokenize(w) == [Upper(w)]
  {
    if w == [] || !NoSeparator(w) {
      return;
    }
    UpperSeparators(w);
    var u := Upper(w);
    assert NoSeparator(u);
    PiecesWord(u);
    TokenizeIsNonEmptyPieces(w);
    assert u != [];
    assert NonEmpty([u]) == [u] + NonEmpty([]);
  }

  /** A comma or white-space character separates tokens: the tokens of the
      text around it are those before it followed by those after it, so
      with `TokenizeWord` every maximal separator-free run is one token. */
  lemma TokenizeSplit(a: string, c: char, b: string)
    requires IsSeparator(c)
    ensures Tokenize(a + [c] + b) == Tokenize(a) + Tokenize(b)
  {
    UpperAppend(a + [c], b);
    UpperAppend(a, [c]);
    assert UpperChar(c) == c;
    assert Upper([c]) == [c];
    TokenizeIsNonEmptyPieces(a + [c] + b);
    TokenizeIsNonEmptyPieces(a);
    TokenizeIsNonEmptyPieces(b);
    AppendAssoc(Upper(a), [c], Upper(b));
    NonEmptyPiecesSplit(Upper(a), c, Upper(b));
  }
}
