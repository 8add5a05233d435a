/** The generator's name sanitizer: a total rewrite of a schema key into a
    fragment that can be used inside a Rust identifier (generator.rs, `sanitize`).

    The rewrite runs in three stages, in this order:
    1. literal substring replacements (`[]`, then `<`, `>`, `|`, `,`, `(`, `)`, `$`),
       each applied to the whole string, left to right, without overlap;
    2. the character class `[\[\]"\-]` replaced by `_`, one character at a time;
    3. an exact-match table for a few reserved words.

    `StagedSanitize` is that definition; `Sanitize` computes the same
    result in one left-to-right pass (`Translate`), which keeps the proofs
    about it small, and `SanitizeIsStaged` shows the two agree. */
module Sanitizer {

  /** Every character that can make a key unusable in an identifier and that
      the first two stages remove. */
  const Banned: set<char> := {'[', ']', '"', '-', '<', '>', '|', ',', '(', ')', '$'}

  /** No character of `s` is in `b`. */
  predicate Free(s: string, b: set<char>) {
    forall k :: 0 <= k < |s| ==> s[k] !in b
  }

  predicate NoBanned(s: string) {
    Free(s, Banned)
  }

  /** The strings the final stage rewrites. */
  predicate IsReserved(s: string) {
    s == "as" || s == "type" || s == "box" || s == "URI"
  }

  // ---------------------------------------------------------------------
  // Stage 1: literal replacements

  /** `s.replace("[]", "Array")`: matches are found left to right and do not overlap. */
  function ReplaceEmptyBrackets(s: string): string
    decreases |s|
  {
    if |s| == 0 then ""
    else if |s| >= 2 && s[0] == '[' && s[1] == ']' then "Array" + ReplaceEmptyBrackets(s[2..])
    else [s[0]] + ReplaceEmptyBrackets(s[1..])
  }

  /** `s.replace(c, rep)` for a one-character pattern. */
  function ReplaceChar(s: string, c: char, rep: string): string
  {
    if |s| == 0 then ""
    else (if s[0] == c then rep else [s[0]]) + ReplaceChar(s[1..], c, rep)
  }

  /** The seven one-character patterns of stage 1 and their replacements,
      in the order the source applies them. */
  const Replacements: seq<(char, string)> :=
    [('<', "_Qlt_"), ('>', "_Qgt_"), ('|', "_Qor_"), (',', "_Qand_"),
     ('(', "_Qop_"), (')', "_Qcp_"), ('$', "_Reserved_")]

  /** The replacements `ps` applied one after another, each to the whole
      string the previous one produced. */
  function ReplaceEach(s: string, ps: seq<(char, string)>): string
    decreases |ps|
  {
    if |ps| == 0 then s else ReplaceEach(ReplaceChar(s, ps[0].0, ps[0].1), ps[1..])
  }

  function ReplacePunctuation(a: string): string
  {
    ReplaceEach(a, Replacements)
  }

  /** Stage 1 as the source chains it: `[]` first, then the seven
      one-character patterns. */
  function Substitute(s: string): string
  {
    ReplacePunctuation(ReplaceEmptyBrackets(s))
  }

  // ---------------------------------------------------------------------
  // Stage 2: the regular expression `[\[\]"\-]` replaced by "_"

  predicate InClass(c: char) {
    c == '[' || c == ']' || c == '"' || c == '-'
  }

  function Underscore(s: string): (r: string)
    ensures |r| == |s|
    ensures forall k :: 0 <= k < |s| ==> r[k] == (if InClass(s[k]) then '_' else s[k])
  {
    if |s| == 0 then "" else [if InClass(s[0]) then '_' else s[0]] + Underscore(s[1..])
  }

  // ---------------------------------------------------------------------
  // Stage 3: reserved words

  function Reserve(s: string): string
  {
    match s
    case "as" => "reserved_as"
    case "type" => "reserved_type"
    case "box" => "reserved_box"
    case "URI" => "UniformResoruceIdiot"
    case _ => s
  }

  /** The sanitizer exactly as the source chains its stages. */
  function StagedSanitize(s: string): string
  {
    Reserve(Underscore(Substitute(s)))
  }

  // ---------------------------------------------------------------------
  // The same rewrite in one pass

  /** The characters stage 1 is responsible for. */
  const Punctuation: set<char> := {'<', '>', '|', ',', '(', ')', '$'}

  /** What one character becomes after the first two stages, when it does
      not start a `[]`. */
  function Piece(c: char): string
  {
    match c
    case '<' => "_Qlt_"
    case '>' => "_Qgt_"
    case '|' => "_Qor_"
    case ',' => "_Qand_"
    case '(' => "_Qop_"
    case ')' => "_Qcp_"
    case '$' => "_Reserved_"
    case _ => if InClass(c) then "_" else [c]
  }

  /** The first two stages fused into one left-to-right pass. */
  function Translate(s: string): string
    decreases |s|
  {
    if |s| == 0 then ""
    else if |s| >= 2 && s[0] == '[' && s[1] == ']' then "Array" + Translate(s[2..])
    else Piece(s[0]) + Translate(s[1..])
  }

  /** The sanitizer the generator calls; `SanitizeIsStaged` shows it is the
      source's chain of stages. */
  function Sanitize(s: string): string
  {
    Reserve(Translate(s))
  }

  // ---------------------------------------------------------------------
  // Properties of the stages

  lemma FreeConcat(a: string, b: string, x: set<char>)
    requires Free(a, x) && Free(b, x)
    ensures Free(a + b, x)
  {
    var ab := a + b;
    forall k | 0 <= k < |ab| ensures ab[k] !in x {
      if k < |a| { assert ab[k] == a[k]; } else { assert ab[k] == b[k - |a|]; }
    }
  }

  /** A string without the pattern is left alone. */
  lemma {:induction false} ReplaceCharAbsent(s: string, c: char, rep: string)
    requires Free(s, {c})
    ensures ReplaceChar(s, c, rep) == s
    decreases |s|
  {
    if |s| > 0 {
      assert s[0] != c;
      ReplaceCharAbsent(s[1..], c, rep);
      assert [s[0]] + s[1..] == s;
    }
  }

  /** A one-character replacement works piecewise. */
  lemma {:induction false} ReplaceCharSplit(p: string, q: string, c: char, rep: string)
    ensures ReplaceChar(p + q, c, rep) == ReplaceChar(p, c, rep) + ReplaceChar(q, c, rep)
    decreases |p|
  {
    if |p| == 0 {
      assert p + q == q;
    } else {
      assert (p + q)[1..] == p[1..] + q;
      ReplaceCharSplit(p[1..], q, c, rep);
    }
  }

  /** A chain of one-character replacements works piecewise. */
  lemma {:induction false} ReplaceEachSplit(p: string, q: string, ps: seq<(char, string)>)
    ensures ReplaceEach(p + q, ps) == ReplaceEach(p, ps) + ReplaceEach(q, ps)
    decreases |ps|
  {
    if |ps| > 0 {
      var c, rep := ps[0].0, ps[0].1;
      ReplaceCharSplit(p, q, c, rep);
      ReplaceEachSplit(ReplaceChar(p, c, rep), ReplaceChar(q, c, rep), ps[1..]);
    }
  }

  /** `s` contains none of the patterns of `ps`. */
  predicate Untouched(s: string, ps: seq<(char, string)>) {
    forall i :: 0 <= i < |ps| ==> Free(s, {ps[i].0})
  }

  /** A chain leaves alone a string that contains none of its patterns. */
  lemma {:induction false} ReplaceEachAbsent(s: string, ps: seq<(char, string)>)
    requires Untouched(s, ps)
    ensures ReplaceEach(s, ps) == s
    decreases |ps|
  {
    if |ps| > 0 {
      assert Free(s, {ps[0].0});
      ReplaceCharAbsent(s, ps[0].0, ps[0].1);
      assert Untouched(s, ps[1..]) by {
        forall i | 0 <= i < |ps| - 1 ensures Free(s, {ps[1..][i].0}) {
          assert ps[1..][i] == ps[i + 1];
        }
      }
      ReplaceEachAbsent(s, ps[1..]);
    }
  }

  /** No replacement text of `ps` contains a pattern of `ps`. */
  predicate Closed(ps: seq<(char, string)>) {
    forall j :: 0 <= j < |ps| ==> Untouched(ps[j].1, ps)
  }

  /** The replacement for the first pattern of `ps` equal to `c`, or `c`
      itself when there is none. */
  function Lookup(c: char, ps: seq<(char, string)>): string
    decreases |ps|
  {
    if |ps| == 0 then [c] else if ps[0].0 == c then ps[0].1 else Lookup(c, ps[1..])
  }

  /** A closed chain maps a single character to its replacement. */
  lemma {:induction false} ReplaceEachOne(c: char, ps: seq<(char, string)>)
    requires Closed(ps)
    ensures ReplaceEach([c], ps) == Lookup(c, ps)
    decreases |ps|
  {
    if |ps| > 0 {
      var rest := ps[1..];
      assert ReplaceChar([], ps[0].0, ps[0].1) == [];
      assert [c][1..] == [];
      if ps[0].0 == c {
        assert ReplaceChar([c], c, ps[0].1) == ps[0].1 + [] == ps[0].1;
        assert ReplaceEach([c], ps) == ReplaceEach(ps[0].1, rest);
        assert Untouched(ps[0].1, ps);
        assert Untouched(ps[0].1, rest) by {
          forall i | 0 <= i < |rest| ensures Free(ps[0].1, {rest[i].0}) {
            assert rest[i] == ps[i + 1];
          }
        }
        ReplaceEachAbsent(ps[0].1, rest);
      } else {
        assert ReplaceChar([c], ps[0].0, ps[0].1) == [c] + [] == [c];
        assert ReplaceEach([c], ps) == ReplaceEach([c], rest);
        assert Closed(rest) by {
          forall j | 0 <= j < |rest| ensures Untouched(rest[j].1, rest) {
            assert rest[j] == ps[j + 1];
            assert Untouched(rest[j].1, ps);
            forall i | 0 <= i < |rest| ensures Free(rest[j].1, {rest[i].0}) {
              assert rest[i] == ps[i + 1];
            }
          }
        }
        ReplaceEachOne(c, rest);
      }
    }
  }

  /** The first pattern equal to `c` is the one at `i`. */
  lemma {:induction false} LookupHit(c: char, ps: seq<(char, string)>, i: nat)
    requires i < |ps| && ps[i].0 == c
    requires forall j :: 0 <= j < i ==> ps[j].0 != c
    ensures Lookup(c, ps) == ps[i].1
    decreases i
  {
    if i > 0 {
      assert ps[0].0 != c;
      LookupHit(c, ps[1..], i - 1);
    }
  }

  lemma {:induction false} LookupMiss(c: char, ps: seq<(char, string)>)
    requires forall j :: 0 <= j < |ps| ==> ps[j].0 != c
    ensures Lookup(c, ps) == [c]
    decreases |ps|
  {
    if |ps| > 0 {
      LookupMiss(c, ps[1..]);
    }
  }

  /** No replacement text of stage 1 contains a pattern of stage 1, a
      bracket, a quote or a hyphen. */
  lemma ReplacementsClosed()
    ensures Closed(Replacements)
    ensures forall j :: 0 <= j < |Replacements| ==> Free(Replacements[j].1, Banned)
  {
    forall j | 0 <= j < |Replacements| ensures Free(Replacements[j].1, Banned) {
    }
    forall j, i | 0 <= j < |Replacements| && 0 <= i < |Replacements|
      ensures Free(Replacements[j].1, {Replacements[i].0})
    {
      assert Free(Replacements[j].1, Banned);
    }
  }

  /** Concatenation regrouped. */
  lemma Regroup(a: string, b: string, c: string)
    ensures a + (b + c) == (a + b) + c
  {
  }

  lemma {:induction false} UnderscoreSplit(a: string, b: string)
    ensures Underscore(a + b) == Underscore(a) + Underscore(b)
    decreases |a|
  {
    if |a| == 0 {
      assert a + b == b;
    } else {
      var head := [if InClass(a[0]) then '_' else a[0]];
      assert (a + b)[0] == a[0] && (a + b)[1..] == a[1..] + b;
      UnderscoreSplit(a[1..], b);
      Regroup(head, Underscore(a[1..]), Underscore(b));
    }
  }

  lemma UnderscoreKeeps(s: string)
    requires Free(s, Banned)
    ensures Underscore(s) == s
  {
    var u := Underscore(s);
    forall k | 0 <= k < |s| ensures u[k] == s[k] {
      assert s[k] !in Banned;
    }
  }

  /** What the first two stages do to a single character. */
  lemma StagesOnOne(c: char)
    ensures Underscore(ReplacePunctuation([c])) == Piece(c)
  {
    ReplacementsClosed();
    ReplaceEachOne(c, Replacements);
    if c in Punctuation {
      PunctuationPiece(c);
    } else {
      LookupMiss(c, Replacements);
      assert Underscore([c])[0] == (if InClass(c) then '_' else c);
    }
  }

  lemma PunctuationPiece(c: char)
    requires c in Punctuation
    ensures Lookup(c, Replacements) == Piece(c)
    ensures Underscore(Piece(c)) == Piece(c)
  {
    PunctuationLookup(c);
    PieceClean(c);
    UnderscoreKeeps(Piece(c));
  }

  lemma PunctuationLookup(c: char)
    requires c in Punctuation
    ensures Lookup(c, Replacements) == Piece(c)
  {
    PunctuationLookups();
    if c == '<' {
    } else if c == '>' {
    } else if c == '|' {
    } else if c == ',' {
    } else if c == '(' {
    } else if c == ')' {
    } else {
      assert c == '$';
    }
  }

  /** The table entry each punctuation character finds. */
  lemma PunctuationLookups()
    ensures Lookup('<', Replacements) == "_Qlt_"
    ensures Lookup('>', Replacements) == "_Qgt_"
    ensures Lookup('|', Replacements) == "_Qor_"
    ensures Lookup(',', Replacements) == "_Qand_"
    ensures Lookup('(', Replacements) == "_Qop_"
    ensures Lookup(')', Replacements) == "_Qcp_"
    ensures Lookup('$', Replacements) == "_Reserved_"
  {
    var R := Replacements;
    LookupHit('<', R, 0);
    LookupHit('>', R, 1);
    LookupHit('|', R, 2);
    LookupHit(',', R, 3);
    LookupHit('(', R, 4);
    LookupHit(')', R, 5);
    LookupHit('$', R, 6);
  }

  lemma PieceClean(c: char)
    requires c in Punctuation
    ensures Free(Piece(c), Banned)
  {
  }

  /** `Array`, which replaces `[]`, is left alone by the later stages. */
  lemma ArrayUntouched()
    ensures ReplacePunctuation("Array") == "Array"
    ensures Underscore("Array") == "Array"
  {
    assert Free("Array", Banned);
    assert Untouched("Array", Replacements);
    ReplaceEachAbsent("Array", Replacements);
    UnderscoreKeeps("Array");
  }

  /** The first two stages after a leading `[]`. */
  lemma StagesAfterBrackets(x: string)
    ensures Underscore(ReplacePunctuation("Array" + x)) == "Array" + Underscore(ReplacePunctuation(x))
  {
    ReplaceEachSplit("Array", x, Replacements);
    ArrayUntouched();
    UnderscoreSplit("Array", ReplacePunctuation(x));
  }

  /** The first two stages after any other leading character. */
  lemma StagesAfterChar(c: char, x: string)
    ensures Underscore(ReplacePunctuation([c] + x)) == Piece(c) + Underscore(ReplacePunctuation(x))
  {
    ReplaceEachSplit([c], x, Replacements);
    UnderscoreSplit(ReplacePunctuation([c]), ReplacePunctuation(x));
    StagesOnOne(c);
  }

  /** The one-pass rewrite is the source's chain of replacements followed by
      the character class. */
  lemma {:induction false} TranslateIsStaged(s: string)
    ensures Translate(s) == Underscore(Substitute(s))
    decreases |s|
  {
    if |s| == 0 {
      assert Untouched("", Replacements);
      ReplaceEachAbsent("", Replacements);
    } else if |s| >= 2 && s[0] == '[' && s[1] == ']' {
      assert ReplaceEmptyBrackets(s) == "Array" + ReplaceEmptyBrackets(s[2..]);
      StagesAfterBrackets(ReplaceEmptyBrackets(s[2..]));
      TranslateIsStaged(s[2..]);
    } else {
      assert ReplaceEmptyBrackets(s) == [s[0]] + ReplaceEmptyBrackets(s[1..]);
      StagesAfterChar(s[0], ReplaceEmptyBrackets(s[1..]));
      TranslateIsStaged(s[1..]);
    }
  }

  /** The sanitizer the generator calls is the source's chain of stages. */
  lemma SanitizeIsStaged(s: string)
    ensures Sanitize(s) == StagedSanitize(s)
  {
    TranslateIsStaged(s);
  }

  // ---------------------------------------------------------------------
  // Properties of the sanitizer

  lemma {:induction false} TranslateNoBanned(s: string)
    ensures NoBanned(Translate(s))
    decreases |s|
  {
    if |s| >= 2 && s[0] == '[' && s[1] == ']' {
      TranslateNoBanned(s[2..]);
      assert Free("Array", Banned);
      FreeConcat("Array", Translate(s[2..]), Banned);
    } else if |s| > 0 {
      TranslateNoBanned(s[1..]);
      var c := s[0];
      assert Free(Piece(c), Banned) by {
        if c !in Banned {
          assert Piece(c) == [c];
        }
      }
      FreeConcat(Piece(c), Translate(s[1..]), Banned);
    }
  }

  /** The names the reserved-word table produces. */
  lemma ReservedNamesClean()
    ensures NoBanned("reserved_as") && NoBanned("reserved_type")
    ensures NoBanned("reserved_box") && NoBanned("UniformResoruceIdiot")
  {
  }

  /** The reserved-word table only produces names without a banned
      character. */
  lemma ReserveKeepsNoBanned(u: string)
    requires NoBanned(u)
    ensures NoBanned(Reserve(u))
  {
    ReservedNamesClean();
  }

  /** Sanitizer safety: no output contains any of `[ ] " - < > | , ( ) $`. */
  lemma SanitizeNoBanned(s: string)
    ensures NoBanned(Sanitize(s))
  {
    TranslateNoBanned(s);
    ReserveKeepsNoBanned(Translate(s));
  }

  /** The reserved-word table is applied to the result of the character
      stages, and every other string passes through it unchanged. */
  lemma SanitizeReservedWords(s: string)
    ensures var u := Underscore(Substitute(s));
      && (u == "as" ==> Sanitize(s) == "reserved_as")
      && (u == "type" ==> Sanitize(s) == "reserved_type")
      && (u == "box" ==> Sanitize(s) == "reserved_box")
      && (u == "URI" ==> Sanitize(s) == "UniformResoruceIdiot")
      && (!IsReserved(u) ==> Sanitize(s) == u)
  {
    TranslateIsStaged(s);
  }

  /** No output of the sanitizer is itself a reserved word. */
  lemma SanitizeNotReserved(s: string)
    ensures !IsReserved(Sanitize(s))
  {
  }

  lemma {:induction false} TranslateIdentity(s: string)
    requires NoBanned(s)
    ensures Translate(s) == s
    decreases |s|
  {
    if |s| > 0 {
      assert s[0] !in Banned;
      assert Piece(s[0]) == [s[0]];
      TranslateIdentity(s[1..]);
      assert [s[0]] + s[1..] == s;
    }
  }

  /** On a string with no banned character that is not a reserved word, the
      sanitizer changes nothing. */
  lemma SanitizeIdentity(s: string)
    requires NoBanned(s)
    requires !IsReserved(s)
    ensures Sanitize(s) == s
  {
    TranslateIdentity(s);
  }

  /** Sanitizing twice is the same as sanitizing once. */
  lemma SanitizeIdempotent(s: string)
    ensures Sanitize(Sanitize(s)) == Sanitize(s)
  {
    SanitizeNoBanned(s);
    SanitizeNotReserved(s);
    SanitizeIdentity(Sanitize(s));
  }

  /** One step of the one-pass rewrite, at a `[]`. */
  lemma TranslateAtBrackets(x: string)
    ensures Translate("[]" + x) == "Array" + Translate(x)
  {
    var s := "[]" + x;
    assert s[0] == '[' && s[1] == ']' && s[2..] == x;
  }

  /** One step of the one-pass rewrite, at any other character. */
  lemma TranslateAtChar(c: char, x: string)
    requires !(c == '[' && |x| > 0 && x[0] == ']')
    ensures Translate([c] + x) == Piece(c) + Translate(x)
  {
    var s := [c] + x;
    assert s[0] == c && s[1..] == x;
    assert |s| >= 2 ==> s[1] == x[0];
  }

  /** The piecewise step past a leading `[]`. */
  lemma SplitAfterBrackets(x: string, q: string)
    requires Translate(x + q) == Translate(x) + Translate(q)
    ensures Translate("[]" + x + q) == Translate("[]" + x) + Translate(q)
  {
    Regroup("[]", x, q);
    TranslateAtBrackets(x + q);
    TranslateAtBrackets(x);
    Regroup("Array", Translate(x), Translate(q));
  }

  /** The piecewise step past any other leading character. */
  lemma SplitAfterChar(c: char, x: string, q: string)
    requires !(c == '[' && |x| > 0 && x[0] == ']')
    requires !(c == '[' && |x + q| > 0 && (x + q)[0] == ']')
    requires Translate(x + q) == Translate(x) + Translate(q)
    ensures Translate([c] + x + q) == Translate([c] + x) + Translate(q)
  {
    Regroup([c], x, q);
    TranslateAtChar(c, x + q);
    TranslateAtChar(c, x);
    Regroup(Piece(c), Translate(x), Translate(q));
  }

  /** The rewrite works piecewise, unless the cut separates a `[` from the
      `]` that follows it. */
  lemma {:induction false} TranslateSplit(p: string, q: string)
    requires !(|p| > 0 && p[|p| - 1] == '[' && |q| > 0 && q[0] == ']')
    ensures Translate(p + q) == Translate(p) + Translate(q)
    decreases |p|
  {
    if |p| == 0 {
      assert p + q == q;
    } else if |p| >= 2 && p[0] == '[' && p[1] == ']' {
      TranslateSplit(p[2..], q);
      assert p == "[]" + p[2..];
      SplitAfterBrackets(p[2..], q);
    } else {
      var x := p[1..];
      TranslateSplit(x, q);
      assert p == [p[0]] + x;
      assert |x| > 0 ==> (x + q)[0] == x[0];
      assert |x| == 0 ==> x + q == q;
      SplitAfterChar(p[0], x, q);
    }
  }

  /** Every `[]` becomes `Array`: the pair is never split into two single
      brackets for the character class to turn into `__`. */
  lemma EmptyBracketsBecomeArray(p: string, q: string)
    ensures Translate(p + "[]" + q) == Translate(p) + "Array" + Translate(q)
  {
    TranslateSplit(p, "[]" + q);
    TranslateSplit("[]", q);
    assert p + "[]" + q == p + ("[]" + q);
    assert Translate("[]") == "Array" + Translate("");
  }

  /** The rewrite of a character that is not a bracket, in context. */
  lemma TranslateAround(p: string, c: char, q: string)
    requires c != '[' && c != ']'
    ensures Translate(p + [c] + q) == Translate(p) + (Piece(c) + Translate(q))
  {
    Regroup(p, [c], q);
    assert ([c] + q)[0] == c;
    TranslateSplit(p, [c] + q);
    TranslateAtChar(c, q);
  }

  /** Sanitized names are not unique: wherever a key has a hyphen, the key
      with an underscore in its place sanitizes to the same name. */
  lemma HyphenCollidesWithUnderscore(p: string, q: string)
    ensures Sanitize(p + "-" + q) == Sanitize(p + "_" + q)
  {
    assert "-" == ['-'] && "_" == ['_'];
    TranslateAround(p, '-', q);
    TranslateAround(p, '_', q);
    assert Piece('-') == Piece('_');
  }
}
