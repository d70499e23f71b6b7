/** The tokenizer of main.go:33-38: pad every parenthesis with spaces, split
    on runs of whitespace, and drop the first and the last piece. */
module Tokenizer {
  import opened Expr

  /** The class `\s` of Go's regexp syntax: tab, newline, form feed, carriage
      return and space. */
  predicate IsSpace(c: char)
  {
    c == ' ' || c == '\t' || c == '\n' || c == '\U{000C}' || c == '\r'
  }

  predicate IsParen(c: char)
  {
    c == '(' || c == ')'
  }

  predicate NoSpace(s: string)
  {
    forall i | 0 <= i < |s| :: !IsSpace(s[i])
  }

  /** The text of an atom: non-empty, no whitespace, no parenthesis. */
  predicate IsAtomText(s: string)
  {
    s != [] && forall i | 0 <= i < |s| :: !IsSpace(s[i]) && !IsParen(s[i])
  }

  /** What a token looks like: a parenthesis or the text of an atom. */
  predicate IsTokenShape(t: string)
  {
    t == "(" || t == ")" || IsAtomText(t)
  }

  /** strings.ReplaceAll for a one-character pattern. */
  function ReplaceAll(s: string, c: char, rep: string): string
  {
    if s == [] then [] else (if s[0] == c then rep else [s[0]]) + ReplaceAll(s[1..], c, rep)
  }

  /** The two ReplaceAll calls of main.go:34-35. */
  function Pad(s: string): string
  {
    ReplaceAll(ReplaceAll(s, '(', " ( "), ')', " ) ")
  }

  /** regexp.MustCompile(`\s+`).Split(s, -1): the pieces between maximal runs
      of whitespace, with an empty first piece when s starts with whitespace
      and an empty last piece when it ends with whitespace; [""] for "". */
  function Split(s: string): (r: seq<string>)
    ensures |r| >= 1
  {
    if s == [] then [""]
    else if IsSpace(s[0]) then
      if |s| > 1 && IsSpace(s[1]) then Split(s[1..]) else [""] + Split(s[1..])
    else
      var rest := Split(s[1..]);
      [[s[0]] + rest[0]] + rest[1..]
  }

  /** tokenize: the slice expression slice[1:len(slice)-1] panics when the
      split has a single piece, which is reported as NoWhitespace. */
  function Tokenize(input: string): Result<seq<string>>
  {
    var pieces := Split(Pad(input));
    if |pieces| < 2 then Err(NoWhitespace) else Ok(pieces[1..|pieces| - 1])
  }

  // ---------------------------------------------------------------------
  // Reference definitions used to state what the tokenizer does

  /** One character after padding. */
  function PadChar(c: char): string
  {
    if IsParen(c) then [' ', c, ' '] else [c]
  }

  /** Padding, one character at a time. */
  function PadEach(s: string): string
  {
    if s == [] then [] else PadChar(s[0]) + PadEach(s[1..])
  }

  function RemoveSpaces(s: string): string
  {
    if s == [] then [] else (if IsSpace(s[0]) then [] else [s[0]]) + RemoveSpaces(s[1..])
  }

  function Flatten(ps: seq<string>): string
  {
    if ps == [] then [] else ps[0] + Flatten(ps[1..])
  }

  function NonEmpty(ps: seq<string>): seq<string>
  {
    if ps == [] then [] else (if ps[0] == "" then [] else [ps[0]]) + NonEmpty(ps[1..])
  }

  /** The non-empty pieces of a split: the words of s. */
  function Words(s: string): seq<string>
  {
    NonEmpty(Split(s))
  }

  /** Every parenthesis of s has whitespace on both sides. */
  predicate Padded(s: string)
  {
    forall i | 0 <= i < |s| && IsParen(s[i]) :: 0 < i < |s| - 1 && IsSpace(s[i - 1]) && IsSpace(s[i + 1])
  }

  /** Every parenthesis of s is followed by whitespace and, unless it is the
      first character, preceded by whitespace; closed under dropping a
      character at the front. */
  predicate PaddedSuffix(s: string)
  {
    forall i | 0 <= i < |s| && IsParen(s[i]) :: i < |s| - 1 && IsSpace(s[i + 1]) && (i == 0 || IsSpace(s[i - 1]))
  }

  // ---------------------------------------------------------------------
  // Padding

  lemma {:induction false} ReplaceAllAppend(a: string, b: string, c: char, rep: string)
    ensures ReplaceAll(a + b, c, rep) == ReplaceAll(a, c, rep) + ReplaceAll(b, c, rep)
  {
    if a == [] {
      assert a + b == b;
    } else {
      assert (a + b)[0] == a[0] && (a + b)[1..] == a[1..] + b;
      ReplaceAllAppend(a[1..], b, c, rep);
      var x := if a[0] == c then rep else [a[0]];
      assert ReplaceAll(a + b, c, rep) == x + ReplaceAll(a[1..] + b, c, rep);
      assert ReplaceAll(a, c, rep) == x + ReplaceAll(a[1..], c, rep);
    }
  }

  lemma {:induction false} PadEachAppend(a: string, b: string)
    ensures PadEach(a + b) == PadEach(a) + PadEach(b)
  {
    if a == [] {
      assert a + b == b;
    } else {
      assert (a + b)[0] == a[0] && (a + b)[1..] == a[1..] + b;
      PadEachAppend(a[1..], b);
      assert PadEach(a + b) == PadChar(a[0]) + PadEach(a[1..] + b);
    }
  }

  /** The two passes of ReplaceAll pad each parenthesis with one space on
      each side and leave every other character alone. */
  lemma {:induction false} PadIsPadEach(s: string)
    ensures Pad(s) == PadEach(s)
  {
    if s != [] {
      var c, t := s[0], s[1..];
      var r1 := ReplaceAll(t, '(', " ( ");
      var x := if c == '(' then " ( " else [c];
      assert ReplaceAll(s, '(', " ( ") == x + r1;
      ReplaceAllAppend(x, r1, ')', " ) ");
      PadIsPadEach(t);
      assert [c][1..] == [];
      if c == '(' {
        assert x == [' '] + ['('] + [' '];
        ReplaceAllAppend([' '] + ['('], [' '], ')', " ) ");
        ReplaceAllAppend([' '], ['('], ')', " ) ");
      }
      assert ReplaceAll(x, ')', " ) ") == PadChar(c);
    }
  }

  lemma {:induction false} PaddedAppend(a: string, b: string)
    requires Padded(a) && Padded(b)
    ensures Padded(a + b)
  {
    var s := a + b;
    forall i | 0 <= i < |s| && IsParen(s[i])
      ensures 0 < i < |s| - 1 && IsSpace(s[i - 1]) && IsSpace(s[i + 1])
    {
      if i < |a| {
        assert s[i] == a[i];
      } else {
        assert s[i] == b[i - |a|];
      }
    }
  }

  lemma {:induction false} PadEachPadded(s: string)
    ensures Padded(PadEach(s))
  {
    if s != [] {
      PadEachPadded(s[1..]);
      PaddedAppend(PadChar(s[0]), PadEach(s[1..]));
    }
  }

  lemma {:induction false} RemoveSpacesAppend(a: string, b: string)
    ensures RemoveSpaces(a + b) == RemoveSpaces(a) + RemoveSpaces(b)
  {
    if a == [] {
      assert a + b == b;
    } else {
      assert (a + b)[0] == a[0] && (a + b)[1..] == a[1..] + b;
      RemoveSpacesAppend(a[1..], b);
      var x := if IsSpace(a[0]) then [] else [a[0]];
      assert RemoveSpaces(a + b) == x + RemoveSpaces(a[1..] + b);
    }
  }

  /** Padding only adds whitespace. */
  lemma {:induction false} PadEachRemoveSpaces(s: string)
    ensures RemoveSpaces(PadEach(s)) == RemoveSpaces(s)
  {
    if s != [] {
      var c := s[0];
      RemoveSpacesAppend(PadChar(c), PadEach(s[1..]));
      PadEachRemoveSpaces(s[1..]);
      if IsParen(c) {
        assert PadChar(c) == [' '] + ([c] + [' ']);
        RemoveSpacesAppend([' '], [c] + [' ']);
        RemoveSpacesAppend([c], [' ']);
      }
      assert RemoveSpaces(PadChar(c)) == (if IsSpace(c) then [] else [c]);
    }
  }

  /** The padded text has whitespace exactly when the input has whitespace
      or a parenthesis. */
  lemma {:induction false} PadEachNoSpace(s: string)
    ensures NoSpace(PadEach(s)) <==> forall i | 0 <= i < |s| :: !IsSpace(s[i]) && !IsParen(s[i])
  {
    if s != [] {
      PadEachNoSpace(s[1..]);
      var p := PadEach(s);
      assert p == PadChar(s[0]) + PadEach(s[1..]);
      if forall i | 0 <= i < |s| :: !IsSpace(s[i]) && !IsParen(s[i]) {
        assert forall i | 0 <= i < |s[1..]| :: s[1..][i] == s[i + 1];
        forall i | 0 <= i < |p| ensures !IsSpace(p[i]) {
          if i > 0 { assert p[i] == PadEach(s[1..])[i - 1]; }
        }
      }
      if NoSpace(p) {
        assert p[0] == s[0];
        assert !IsParen(s[0]);
        forall i | 0 <= i < |PadEach(s[1..])| ensures !IsSpace(PadEach(s[1..])[i]) {
          assert PadEach(s[1..])[i] == p[i + 1];
        }
        forall i | 0 <= i < |s| ensures !IsSpace(s[i]) && !IsParen(s[i]) {
          if i > 0 { assert s[i] == s[1..][i - 1]; }
        }
      }
    }
  }

  lemma PadEachFirst(s: string)
    requires s != [] && (IsParen(s[0]) || IsSpace(s[0]))
    ensures PadEach(s) != [] && IsSpace(PadEach(s)[0])
  {
    assert PadEach(s) == PadChar(s[0]) + PadEach(s[1..]);
  }

  lemma {:induction false} PadEachLast(s: string)
    requires s != [] && (IsParen(s[|s| - 1]) || IsSpace(s[|s| - 1]))
    ensures PadEach(s) != [] && IsSpace(PadEach(s)[|PadEach(s)| - 1])
  {
    var n := |s| - 1;
    assert s == s[..n] + [s[n]];
    PadEachAppend(s[..n], [s[n]]);
    assert PadEach([s[n]]) == PadChar(s[n]);
  }

  // ---------------------------------------------------------------------
  // Splitting

  /** The first piece is empty exactly when s is empty or starts with
      whitespace; otherwise it starts with s's first character. */
  lemma {:induction false} SplitHead(s: string)
    ensures Split(s)[0] == "" <==> (s == [] || IsSpace(s[0]))
    ensures Split(s)[0] != "" ==> Split(s)[0][0] == s[0]
  {
    if s != [] && IsSpace(s[0]) && |s| > 1 && IsSpace(s[1]) {
      SplitHead(s[1..]);
    }
  }

  lemma SplitHeadNotEmpty(s: string)
    requires Split(s)[0] != ""
    ensures s != [] && !IsSpace(s[0])
  {
    SplitHead(s);
  }

  lemma SplitHeadWord(s: string)
    requires s != [] && !IsSpace(s[0])
    ensures Split(s)[0] != ""
  {
    SplitHead(s);
  }

  /** Split yields a single piece exactly when s has no whitespace. */
  lemma {:induction false} SplitSingle(s: string)
    ensures |Split(s)| == 1 <==> NoSpace(s)
  {
    if s != [] {
      SplitSingle(s[1..]);
      if IsSpace(s[0]) {
        if |s| > 1 && IsSpace(s[1]) {
          assert !NoSpace(s[1..]) by { assert IsSpace(s[1..][0]); }
        }
      } else {
        assert NoSpace(s) <==> NoSpace(s[1..]) by {
          assert forall i | 0 <= i < |s[1..]| :: s[1..][i] == s[i + 1];
          if NoSpace(s[1..]) {
            forall i | 0 <= i < |s| ensures !IsSpace(s[i]) {
              if i > 0 { assert s[i] == s[1..][i - 1]; }
            }
          }
        }
      }
    }
  }

  /** The last piece after a character joins the first piece. */
  lemma LastAfterJoin(c: char, rest: seq<string>)
    requires |rest| >= 2
    ensures ([[c] + rest[0]] + rest[1..])[|rest| - 1] == rest[|rest| - 1]
  {
  }

  /** A text of two or more characters that starts with a word character:
      its first character joins the first piece. */
  lemma SplitLastWord(s: string)
    requires |s| >= 2 && !IsSpace(s[0])
    ensures (Split(s)[|Split(s)| - 1] == "") == (Split(s[1..])[|Split(s[1..])| - 1] == "")
  {
    var t := s[1..];
    var rest := Split(t);
    var r := Split(s);
    assert r == [[s[0]] + rest[0]] + rest[1..];
    if |rest| == 1 {
      SplitSingle(t);
      SplitHead(t);
      assert rest[|rest| - 1] != "";
      assert |r| == 1 && r[0] == [s[0]] + rest[0];
      assert r[|r| - 1] != "";
    } else {
      LastAfterJoin(s[0], rest);
      assert r[|r| - 1] == rest[|rest| - 1];
    }
  }

  /** A text of two or more characters that starts with whitespace: the
      pieces are those of the rest, with an empty one in front when the
      whitespace run ends here. */
  lemma SplitLastSpace(s: string)
    requires |s| >= 2 && IsSpace(s[0])
    ensures (Split(s)[|Split(s)| - 1] == "") == (Split(s[1..])[|Split(s[1..])| - 1] == "")
  {
    var rest := Split(s[1..]);
    var r := Split(s);
    if !IsSpace(s[1]) {
      assert r == [""] + rest;
      assert r[|r| - 1] == rest[|rest| - 1];
    } else {
      assert r == rest;
    }
  }

  /** Splitting a text of two or more characters: its last piece is empty
      exactly when that of the text without its first character is. */
  lemma SplitLastStep(s: string)
    requires |s| >= 2
    ensures (Split(s)[|Split(s)| - 1] == "") == (Split(s[1..])[|Split(s[1..])| - 1] == "")
  {
    if IsSpace(s[0]) {
      SplitLastSpace(s);
    } else {
      SplitLastWord(s);
    }
  }

  /** The last piece is empty exactly when s is empty or ends with
      whitespace. */
  lemma {:induction false} SplitLast(s: string)
    ensures Split(s)[|Split(s)| - 1] == "" <==> (s == [] || IsSpace(s[|s| - 1]))
  {
    if |s| == 1 {
      if !IsSpace(s[0]) {
        assert Split(s[1..]) == [""];
        assert Split(s) == [[s[0]] + ""];
      }
    } else if |s| >= 2 {
      var t := s[1..];
      SplitLast(t);
      SplitLastStep(s);
      assert t[|t| - 1] == s[|s| - 1];
    }
  }

  /** Runs of whitespace are maximal: no piece but the first and the last is
      empty. */
  lemma {:induction false} SplitMiddle(s: string)
    ensures forall i | 0 < i < |Split(s)| - 1 :: Split(s)[i] != ""
  {
    if s != [] {
      var t := s[1..];
      SplitMiddle(t);
      if IsSpace(s[0]) && !(|s| > 1 && IsSpace(s[1])) {
        SplitHead(t);
        assert Split(s) == [""] + Split(t);
      }
    }
  }

  /** No piece holds whitespace. */
  lemma {:induction false} SplitNoSpace(s: string)
    ensures forall i | 0 <= i < |Split(s)| :: NoSpace(Split(s)[i])
  {
    if s != [] {
      var t := s[1..];
      SplitNoSpace(t);
      if !IsSpace(s[0]) {
        var r := Split(t);
        var p := [s[0]] + r[0];
        assert NoSpace(r[0]);
        assert NoSpace(p) by {
          forall i | 0 <= i < |p| ensures !IsSpace(p[i]) {
            if i > 0 { assert p[i] == r[0][i - 1]; }
          }
        }
        assert Split(s) == [p] + r[1..];
      }
    }
  }

  /** In a text whose parentheses are padded, a piece is a parenthesis alone
      or holds no parenthesis. */
  lemma {:induction false} SplitParens(s: string)
    requires PaddedSuffix(s)
    ensures forall i | 0 <= i < |Split(s)| ::
      Split(s)[i] == "(" || Split(s)[i] == ")" || forall j | 0 <= j < |Split(s)[i]| :: !IsParen(Split(s)[i][j])
  {
    if s != [] {
      var t := s[1..];
      assert PaddedSuffix(t) by {
        forall i | 0 <= i < |t| && IsParen(t[i])
          ensures i < |t| - 1 && IsSpace(t[i + 1]) && (i == 0 || IsSpace(t[i - 1]))
        {
          assert t[i] == s[i + 1];
        }
      }
      SplitParens(t);
      if !IsSpace(s[0]) {
        var r := Split(t);
        var p := [s[0]] + r[0];
        assert Split(s) == [p] + r[1..];
        SplitHead(t);
        if IsParen(s[0]) {
          assert IsSpace(t[0]);
          assert p == [s[0]];
        } else {
          if r[0] != "" {
            assert r[0][0] == t[0] == s[1];
            assert !IsParen(s[1]);
            assert r[0] != "(" && r[0] != ")";
          }
          forall j | 0 <= j < |p| ensures !IsParen(p[j]) {
            if j > 0 { assert p[j] == r[0][j - 1]; }
          }
        }
      }
    }
  }

  lemma {:induction false} FlattenAppend(a: seq<string>, b: seq<string>)
    ensures Flatten(a + b) == Flatten(a) + Flatten(b)
  {
    if a == [] {
      assert a + b == b;
    } else {
      assert (a + b)[0] == a[0] && (a + b)[1..] == a[1..] + b;
      FlattenAppend(a[1..], b);
      assert Flatten(a + b) == a[0] + Flatten(a[1..] + b);
    }
  }

  /** The pieces, put back together, are s without its whitespace. */
  lemma {:induction false} FlattenSplit(s: string)
    ensures Flatten(Split(s)) == RemoveSpaces(s)
  {
    if s != [] {
      var t := s[1..];
      FlattenSplit(t);
      var r := Split(t);
      if IsSpace(s[0]) {
        if !(|s| > 1 && IsSpace(s[1])) {
          assert Flatten([""] + r) == "" + Flatten(r);
        }
      } else {
        assert Flatten(r) == r[0] + Flatten(r[1..]);
        assert Split(s) == [[s[0]] + r[0]] + r[1..];
        assert Flatten(Split(s)) == ([s[0]] + r[0]) + Flatten(r[1..]);
      }
    }
  }

  lemma {:induction false} NonEmptyAppend(a: seq<string>, b: seq<string>)
    ensures NonEmpty(a + b) == NonEmpty(a) + NonEmpty(b)
  {
    if a == [] {
      assert a + b == b;
    } else {
      assert (a + b)[0] == a[0] && (a + b)[1..] == a[1..] + b;
      NonEmptyAppend(a[1..], b);
      var x := if a[0] == "" then [] else [a[0]];
      assert NonEmpty(a + b) == x + NonEmpty(a[1..] + b);
    }
  }

  lemma {:induction false} NonEmptyAll(ps: seq<string>)
    requires forall i | 0 <= i < |ps| :: ps[i] != ""
    ensures NonEmpty(ps) == ps
  {
    if ps != [] {
      NonEmptyAll(ps[1..]);
    }
  }

  // ---------------------------------------------------------------------
  // Words of concatenated text

  lemma WordsSpaceCons(c: char, t: string)
    requires IsSpace(c)
    ensures Words([c] + t) == Words(t)
  {
    assert ([c] + t)[1..] == t;
  }

  lemma {:induction false} WordsCons(c: char, t: string)
    requires !IsSpace(c)
    ensures Words([c] + t) == [[c] + Split(t)[0]] + NonEmpty(Split(t)[1..])
  {
    assert ([c] + t)[1..] == t;
    var r := Split(t);
    assert Split([c] + t) == [[c] + r[0]] + r[1..];
    NonEmptyAppend([[c] + r[0]], r[1..]);
  }

  /** Words of a text whose first piece is empty. */
  lemma WordsEmptyHead(t: string)
    requires Split(t)[0] == ""
    ensures Words(t) == NonEmpty(Split(t)[1..])
  {
    var p := Split(t);
    assert p == [p[0]] + p[1..];
    NonEmptyAppend([p[0]], p[1..]);
    assert NonEmpty([p[0]]) == [] by { assert [p[0]][1..] == []; }
  }

  /** Words of a text whose first piece is not empty. */
  lemma WordsFullHead(t: string)
    requires Split(t)[0] != ""
    ensures Words(t) == [Split(t)[0]] + NonEmpty(Split(t)[1..])
  {
    var p := Split(t);
    assert p == [p[0]] + p[1..];
    NonEmptyAppend([p[0]], p[1..]);
    assert NonEmpty([p[0]]) == [p[0]] by { assert [p[0]][1..] == []; }
  }

  /** The step of WordsAppend for a first character that is not whitespace,
      when the rest of the first text has an empty first piece. */
  lemma WordsAppendStepEmpty(c: char, a: string, b: string)
    requires !IsSpace(c) && Split(a)[0] == ""
    requires a == [] ==> b == [] || IsSpace(b[0])
    requires Words(a + b) == Words(a) + Words(b)
    ensures Words([c] + (a + b)) == Words([c] + a) + Words(b)
  {
    var ab := a + b;
    assert Split(ab)[0] == "" by {
      SplitHead(ab);
      SplitHead(a);
      if a != [] {
        assert ab[0] == a[0];
      } else {
        assert ab == b;
      }
    }
    assert Words([c] + ab) == [[c]] + Words(ab) by {
      WordsCons(c, ab);
      WordsEmptyHead(ab);
      assert [c] + Split(ab)[0] == [c];
    }
    assert Words([c] + a) == [[c]] + Words(a) by {
      WordsCons(c, a);
      WordsEmptyHead(a);
      assert [c] + Split(a)[0] == [c];
    }
    assert [[c]] + (Words(a) + Words(b)) == [[c]] + Words(a) + Words(b);
  }

  lemma ConsInjective(x: string, xs: seq<string>, y: string, ys: seq<string>, zs: seq<string>)
    requires [x] + xs == [y] + ys + zs
    ensures x == y && xs == ys + zs
  {
    assert [y] + ys + zs == [y] + (ys + zs);
    assert ([x] + xs)[0] == x && ([y] + (ys + zs))[0] == y;
    assert ([x] + xs)[1..] == xs && ([y] + (ys + zs))[1..] == ys + zs;
  }

  /** The step of WordsAppend for a first character that is not whitespace,
      when the rest of the first text has a non-empty first piece. */
  lemma WordsAppendStepFull(c: char, a: string, b: string)
    requires !IsSpace(c) && Split(a)[0] != ""
    requires Words(a + b) == Words(a) + Words(b)
    ensures Words([c] + (a + b)) == Words([c] + a) + Words(b)
  {
    SplitHeadNotEmpty(a);
    assert (a + b)[0] == a[0];
    SplitHeadWord(a + b);
    WordsFullHead(a + b);
    WordsFullHead(a);
    ConsInjective(Split(a + b)[0], NonEmpty(Split(a + b)[1..]), Split(a)[0], NonEmpty(Split(a)[1..]), Words(b));
    WordsConsEqual(c, a + b, a, b);
  }

  lemma WordsConsEqual(c: char, x: string, y: string, b: string)
    requires !IsSpace(c)
    requires Split(x)[0] == Split(y)[0]
    requires NonEmpty(Split(x)[1..]) == NonEmpty(Split(y)[1..]) + Words(b)
    ensures Words([c] + x) == Words([c] + y) + Words(b)
  {
    WordsCons(c, x);
    WordsCons(c, y);
    ConsAppend([c] + Split(y)[0], NonEmpty(Split(y)[1..]), Words(b));
  }

  /** Regrouping a cons in front of an append. The step is a lemma of its
      own because the solver handles it within WordsConsEqual only at a
      much higher cost. */
  lemma ConsAppend(h: string, xs: seq<string>, ys: seq<string>)
    ensures [h] + (xs + ys) == [h] + xs + ys
  {
  }

  /** The words of two texts that whitespace separates are the words of the
      first followed by the words of the second. */
  lemma {:induction false} WordsAppend(a: string, b: string)
    requires a == [] || b == [] || IsSpace(a[|a| - 1]) || IsSpace(b[0])
    ensures Words(a + b) == Words(a) + Words(b)
  {
    if a == [] {
      assert a + b == b;
    } else {
      var c, a' := a[0], a[1..];
      assert a + b == [c] + (a' + b);
      assert a == [c] + a';
      WordsAppend(a', b);
      if IsSpace(c) {
        WordsSpaceCons(c, a' + b);
        WordsSpaceCons(c, a');
      } else if Split(a')[0] == "" {
        WordsAppendStepEmpty(c, a', b);
      } else {
        WordsAppendStepFull(c, a', b);
      }
    }
  }

  lemma {:induction false} WordsOfWord(w: string)
    requires w != [] && NoSpace(w)
    ensures Words(w) == [w]
  {
    var t := w[1..];
    assert w == [w[0]] + t;
    WordsCons(w[0], t);
    if t == [] {
      assert [w[0]] + "" == w;
    } else {
      SplitSingle(t);
      assert NoSpace(t) by {
        forall i | 0 <= i < |t| ensures !IsSpace(t[i]) { assert t[i] == w[i + 1]; }
      }
      WordsOfWord(t);
      SplitHead(t);
      assert Split(t) == [t];
    }
  }

  lemma {:induction false} WordsOfBlank(s: string)
    requires forall i | 0 <= i < |s| :: IsSpace(s[i])
    ensures Words(s) == []
  {
    if s != [] {
      assert s == [s[0]] + s[1..];
      WordsSpaceCons(s[0], s[1..]);
      WordsOfBlank(s[1..]);
    }
  }

  // ---------------------------------------------------------------------
  // What tokenize returns

  /** tokenize fails exactly when the input has neither whitespace nor a
      parenthesis, so that the split has a single piece. */
  lemma TokenizeFails(input: string)
    ensures Tokenize(input).Err? <==> forall i | 0 <= i < |input| :: !IsSpace(input[i]) && !IsParen(input[i])
  {
    PadIsPadEach(input);
    SplitSingle(Pad(input));
    PadEachNoSpace(input);
  }

  /** Every token is "(", ")" or the non-empty text of an atom, whatever the
      input. */
  lemma TokenizeShape(input: string)
    ensures Tokenize(input).Ok? ==> forall i | 0 <= i < |Tokenize(input).value| :: IsTokenShape(Tokenize(input).value[i])
  {
    var s := Pad(input);
    PadIsPadEach(input);
    PadEachPadded(input);
    var r := Split(s);
    SplitParens(s);
    SplitNoSpace(s);
    SplitMiddle(s);
    if |r| >= 2 {
      var toks := r[1..|r| - 1];
      forall i | 0 <= i < |toks| ensures IsTokenShape(toks[i]) {
        assert toks[i] == r[i + 1];
        assert NoSpace(r[i + 1]);
      }
    }
  }

  /** Padding puts whitespace at both ends of a fully parenthesized input. */
  lemma PadEnds(input: string)
    requires input != [] && input[0] == '(' && input[|input| - 1] == ')'
    ensures Pad(input) != [] && IsSpace(Pad(input)[0]) && IsSpace(Pad(input)[|Pad(input)| - 1])
  {
    PadIsPadEach(input);
    PadEachFirst(input);
    PadEachLast(input);
  }

  /** A text with whitespace at both ends splits into an empty first piece,
      an empty last piece and non-empty pieces between them. */
  lemma SplitEnds(s: string)
    requires s != [] && IsSpace(s[0]) && IsSpace(s[|s| - 1])
    ensures |Split(s)| >= 2 && Split(s)[0] == "" && Split(s)[|Split(s)| - 1] == ""
    ensures forall i | 0 < i < |Split(s)| - 1 :: Split(s)[i] != ""
  {
    SplitSingle(s);
    assert !NoSpace(s) by { assert IsSpace(s[0]); }
    SplitHead(s);
    SplitLast(s);
    SplitMiddle(s);
  }

  lemma DropFirstSplitLast(r: seq<string>)
    requires |r| >= 2
    ensures r[1..] == r[1..|r| - 1] + [r[|r| - 1]]
  {
  }

  /** The non-empty pieces of such a split are the pieces between its ends. */
  lemma NonEmptyInner(r: seq<string>)
    requires |r| >= 2 && r[0] == "" && r[|r| - 1] == ""
    requires forall i | 0 < i < |r| - 1 :: r[i] != ""
    ensures NonEmpty(r) == r[1..|r| - 1]
  {
    var mid := r[1..|r| - 1];
    assert NonEmpty(mid) == mid by {
      forall i | 0 <= i < |mid| ensures mid[i] != "" {
        assert mid[i] == r[i + 1];
      }
      NonEmptyAll(mid);
    }
    var last := r[|r| - 1];
    assert NonEmpty(r) == NonEmpty(r[1..]) by {
      assert [] + NonEmpty(r[1..]) == NonEmpty(r[1..]);
    }
    DropFirstSplitLast(r);
    assert NonEmpty(mid + [last]) == mid by {
      NonEmptyAppend(mid, [last]);
      assert NonEmpty([last]) == [] by { assert [last][1..] == []; }
      assert mid + [] == mid;
    }
  }

  /** On a fully parenthesized input, the dropped first and last pieces are
      empty, so the tokens are the words of the padded text. */
  lemma TokenizeWords(input: string)
    requires input != [] && input[0] == '(' && input[|input| - 1] == ')'
    ensures Tokenize(input) == Ok(Words(Pad(input)))
  {
    PadEnds(input);
    SplitEnds(Pad(input));
    NonEmptyInner(Split(Pad(input)));
  }

  lemma {:induction false} FlattenNonEmpty(ps: seq<string>)
    ensures Flatten(NonEmpty(ps)) == Flatten(ps)
  {
    if ps != [] {
      FlattenNonEmpty(ps[1..]);
      var x := if ps[0] == "" then [] else [ps[0]];
      FlattenAppend(x, NonEmpty(ps[1..]));
      assert Flatten(x) == ps[0] by { assert [ps[0]][1..] == []; }
    }
  }

  /** On a fully parenthesized input nothing but whitespace is lost: the
      tokens, put together, are the input without its whitespace. */
  lemma TokenizeKeepsText(input: string)
    requires input != [] && input[0] == '(' && input[|input| - 1] == ')'
    ensures Tokenize(input).Ok?
    ensures Flatten(Tokenize(input).value) == RemoveSpaces(input)
  {
    TokenizeWords(input);
    FlattenNonEmpty(Split(Pad(input)));
    FlattenSplit(Pad(input));
    PadIsPadEach(input);
    PadEachRemoveSpaces(input);
  }

  // ---------------------------------------------------------------------
  // Text laid out as atoms, parentheses and whitespace

  predicate IsBlank(s: string)
  {
    s != [] && forall i | 0 <= i < |s| :: IsSpace(s[i])
  }

  /** A piece of layout: a parenthesis, an atom or a run of whitespace. */
  predicate IsChunk(c: string)
  {
    c == "(" || c == ")" || IsAtomText(c) || IsBlank(c)
  }

  /** No two atoms are adjacent. */
  predicate Separated(cs: seq<string>)
  {
    forall i | 0 <= i < |cs| - 1 :: !(IsAtomText(cs[i]) && IsAtomText(cs[i + 1]))
  }

  /** A layout: chunks with no two atoms adjacent. */
  predicate Layout(cs: seq<string>)
  {
    (forall i | 0 <= i < |cs| :: IsChunk(cs[i])) && Separated(cs)
  }

  /** The chunks that are not whitespace. */
  function ChunkTokens(cs: seq<string>): seq<string>
  {
    if cs == [] then [] else Kept(cs[0]) + ChunkTokens(cs[1..])
  }

  /** The token a chunk contributes: none for whitespace, else itself. */
  function Kept(c: string): seq<string>
  {
    if IsBlank(c) then [] else [c]
  }

  lemma {:induction false} PadEachPlain(s: string)
    requires forall i | 0 <= i < |s| :: !IsParen(s[i])
    ensures PadEach(s) == s
  {
    if s != [] {
      PadEachPlain(s[1..]);
    }
  }

  lemma WordsOfPaddedParen(c: char)
    requires IsParen(c)
    ensures Words(PadChar(c)) == [[c]]
  {
    assert PadChar(c) == [' '] + ([c] + [' ']);
    WordsSpaceCons(' ', [c] + [' ']);
    WordsAppend([c], [' ']);
    WordsOfWord([c]);
    WordsOfBlank([' ']);
  }

  lemma WordsOfChunk(c: string)
    requires IsChunk(c)
    ensures Words(PadEach(c)) == if IsBlank(c) then [] else [c]
  {
    if c == "(" || c == ")" {
      assert PadEach(c) == PadChar(c[0]) by { assert c[1..] == []; }
      WordsOfPaddedParen(c[0]);
      assert [c[0]] == c;
    } else {
      PadEachPlain(c);
      if IsBlank(c) {
        WordsOfBlank(c);
      } else {
        WordsOfWord(c);
      }
    }
  }

  lemma {:induction false} FlattenFirst(cs: seq<string>)
    requires cs != [] && cs[0] != []
    ensures Flatten(cs) != [] && Flatten(cs)[0] == cs[0][0]
  {
  }

  lemma {:induction false} FlattenLast(cs: seq<string>)
    requires cs != [] && cs[|cs| - 1] != []
    ensures Flatten(cs) != [] && Flatten(cs)[|Flatten(cs)| - 1] == cs[|cs| - 1][|cs[|cs| - 1]| - 1]
  {
    var n := |cs| - 1;
    assert cs == cs[..n] + [cs[n]];
    FlattenAppend(cs[..n], [cs[n]]);
    assert Flatten([cs[n]]) == cs[n] by { assert [cs[n]][1..] == []; }
  }

  /** The words of laid-out text are its chunks other than whitespace. */
  lemma {:induction false} WordsOfLayout(cs: seq<string>)
    requires Layout(cs)
    ensures Words(PadEach(Flatten(cs))) == ChunkTokens(cs)
  {
    if cs != [] {
      var c, rest := cs[0], cs[1..];
      assert Layout(rest) by {
        forall i | 0 <= i < |rest| - 1 ensures !(IsAtomText(rest[i]) && IsAtomText(rest[i + 1])) {
          assert rest[i] == cs[i + 1] && rest[i + 1] == cs[i + 2];
        }
      }
      WordsOfLayout(rest);
      PadEachAppend(c, Flatten(rest));
      var x, y := PadEach(c), PadEach(Flatten(rest));
      WordsOfChunk(c);
      if IsAtomText(c) {
        PadEachPlain(c);
        if rest != [] {
          assert IsChunk(rest[0]) && !IsAtomText(rest[0]);
          FlattenFirst(rest);
          PadEachFirst(Flatten(rest));
        }
      } else if IsBlank(c) {
        PadEachPlain(c);
      } else {
        assert x == PadChar(c[0]) by { assert c[1..] == []; }
      }
      WordsAppend(x, y);
    }
  }

  /** tokenize on a fully parenthesized text laid out as atoms, parentheses
      and whitespace returns the atoms and parentheses in order. */
  lemma TokenizeLayout(cs: seq<string>)
    requires Layout(cs)
    requires cs != [] && cs[0] == "(" && cs[|cs| - 1] == ")"
    ensures Tokenize(Flatten(cs)) == Ok(ChunkTokens(cs))
  {
    FlattenFirst(cs);
    FlattenLast(cs);
    TokenizeWords(Flatten(cs));
    PadIsPadEach(Flatten(cs));
    WordsOfLayout(cs);
  }

  lemma {:induction false} ChunkTokensAppend(a: seq<string>, b: seq<string>)
    ensures ChunkTokens(a + b) == ChunkTokens(a) + ChunkTokens(b)
  {
    if a == [] {
      assert a + b == b;
    } else {
      assert (a + b)[0] == a[0] && (a + b)[1..] == a[1..] + b;
      ChunkTokensAppend(a[1..], b);
    }
  }

  /** Two layouts put side by side, with no atom on both sides of the seam. */
  lemma LayoutAppend(a: seq<string>, b: seq<string>)
    requires Layout(a) && Layout(b)
    requires a != [] && b != [] && !(IsAtomText(a[|a| - 1]) && IsAtomText(b[0]))
    ensures Layout(a + b)
    ensures ChunkTokens(a + b) == ChunkTokens(a) + ChunkTokens(b)
    ensures Flatten(a + b) == Flatten(a) + Flatten(b)
  {
    ChunkTokensAppend(a, b);
    FlattenAppend(a, b);
    var s := a + b;
    forall i | 0 <= i < |s| - 1 ensures !(IsAtomText(s[i]) && IsAtomText(s[i + 1])) {
      if i + 1 < |a| {
        assert s[i] == a[i] && s[i + 1] == a[i + 1];
      } else if i + 1 == |a| {
        assert s[i] == a[|a| - 1] && s[i + 1] == b[0];
      } else {
        assert s[i] == b[i - |a|] && s[i + 1] == b[i + 1 - |a|];
      }
    }
  }

  /** Which chunks of the example of main_test.go are atoms. */
  lemma ExampleAtoms()
    ensures IsAtomText("begin") && IsAtomText("define") && IsAtomText("r") && IsAtomText("10")
    ensures IsAtomText("*") && IsAtomText("pi")
    ensures !IsAtomText("(") && !IsAtomText(")") && !IsAtomText(" ")
  {
    assert IsParen("("[0]) && IsParen(")"[0]) && IsSpace(" "[0]);
  }

  /** Which chunks of the example of main_test.go are whitespace. */
  lemma ExampleBlanks()
    ensures IsBlank(" ")
    ensures !IsBlank("(") && !IsBlank(")") && !IsBlank("r") && !IsBlank("*")
    ensures !IsBlank("begin") && !IsBlank("define") && !IsBlank("10") && !IsBlank("pi")
  {
    assert !IsSpace("("[0]) && !IsSpace(")"[0]) && !IsSpace("r"[0]) && !IsSpace("*"[0]);
    assert !IsSpace("begin"[0]) && !IsSpace("define"[0]) && !IsSpace("10"[0]) && !IsSpace("pi"[0]);
  }

  /** The tokens the chunks of the example of main_test.go contribute. */
  lemma ExampleKept()
    ensures Kept(" ") == [] && Kept("(") == ["("] && Kept(")") == [")"]
    ensures Kept("begin") == ["begin"] && Kept("define") == ["define"] && Kept("r") == ["r"]
    ensures Kept("10") == ["10"] && Kept("*") == ["*"] && Kept("pi") == ["pi"]
  {
    ExampleBlanks();
  }

  /** The text of five chunks. */
  lemma FiveText(g: seq<string>)
    requires |g| == 5
    ensures Flatten(g) == g[0] + (g[1] + (g[2] + (g[3] + g[4])))
  {
    assert g[4..][1..] == [] && g[4..][0] == g[4];
    assert g[3..][1..] == g[4..] && g[3..][0] == g[3];
    assert g[2..][1..] == g[3..] && g[2..][0] == g[2];
    assert g[1..][1..] == g[2..] && g[1..][0] == g[1];
    assert Flatten(g[4..]) == g[4] by {
      assert g[4] + [] == g[4];
    }
    assert Flatten(g[3..]) == g[3] + g[4];
    assert Flatten(g[2..]) == g[2] + (g[3] + g[4]);
    assert Flatten(g[1..]) == g[1] + (g[2] + (g[3] + g[4]));
  }

  /** The tokens of five chunks. */
  lemma FiveTokens(g: seq<string>)
    requires |g| == 5
    ensures ChunkTokens(g) == Kept(g[0]) + (Kept(g[1]) + (Kept(g[2]) + (Kept(g[3]) + Kept(g[4]))))
  {
    assert g[4..][1..] == [] && g[4..][0] == g[4];
    assert g[3..][1..] == g[4..] && g[3..][0] == g[3];
    assert g[2..][1..] == g[3..] && g[2..][0] == g[2];
    assert g[1..][1..] == g[2..] && g[1..][0] == g[1];
    assert ChunkTokens(g[4..]) == Kept(g[4]) by {
      assert Kept(g[4]) + [] == Kept(g[4]);
    }
    assert ChunkTokens(g[3..]) == Kept(g[3]) + Kept(g[4]);
    assert ChunkTokens(g[2..]) == Kept(g[2]) + (Kept(g[3]) + Kept(g[4]));
    assert ChunkTokens(g[1..]) == Kept(g[1]) + (Kept(g[2]) + (Kept(g[3]) + Kept(g[4])));
  }

  /** When five chunks form a layout. */
  lemma FiveLayout(g: seq<string>)
    requires |g| == 5
    requires IsChunk(g[0]) && IsChunk(g[1]) && IsChunk(g[2]) && IsChunk(g[3]) && IsChunk(g[4])
    requires !(IsAtomText(g[0]) && IsAtomText(g[1])) && !(IsAtomText(g[1]) && IsAtomText(g[2]))
    requires !(IsAtomText(g[2]) && IsAtomText(g[3])) && !(IsAtomText(g[3]) && IsAtomText(g[4]))
    ensures Layout(g)
  {
  }

  /** The chunks of the example of main_test.go, five at a time. */
  function ExampleGroup(i: nat): seq<string>
    requires i < 5
  {
    [["(", "begin", " ", "(", "define"], [" ", "r", " ", "10", ")"], [" ", "(", "*", " ", "pi"],
     [" ", "(", "*", " ", "r"], [" ", "r", ")", ")", ")"]][i]
  }

  /** The text of each group. */
  function ExampleGroupText(i: nat): string
    requires i < 5
  {
    ["(begin (define", " r 10)", " (* pi", " (* r", " r)))"][i]
  }

  /** The tokens of each group. */
  function ExampleGroupTokens(i: nat): seq<string>
    requires i < 5
  {
    [["(", "begin", "(", "define"], ["r", "10", ")"], ["(", "*", "pi"], ["(", "*", "r"], ["r", ")", ")", ")"]][i]
  }

  /** Each group of the example is a layout. */
  lemma ExampleGroupLayout(i: nat)
    requires i < 5
    ensures Layout(ExampleGroup(i))
  {
    ExampleAtoms();
    ExampleBlanks();
    FiveLayout(ExampleGroup(i));
  }

  /** Each group of the example spells its text. */
  lemma ExampleGroupSpells(i: nat)
    requires i < 5
    ensures Flatten(ExampleGroup(i)) == ExampleGroupText(i)
  {
    FiveText(ExampleGroup(i));
  }

  /** Each group of the example contributes its tokens. */
  lemma ExampleGroupKept(i: nat)
    requires i < 5
    ensures ChunkTokens(ExampleGroup(i)) == ExampleGroupTokens(i)
  {
    FiveTokens(ExampleGroup(i));
    ExampleKept();
  }

  /** The chunks of the example of main_test.go form a layout. */
  lemma ExampleLayout(cs: seq<string>)
    requires cs == ExampleGroup(0) + ExampleGroup(1) + ExampleGroup(2) + ExampleGroup(3) + ExampleGroup(4)
    ensures Layout(cs)
    ensures Flatten(cs) == ExampleGroupText(0) + ExampleGroupText(1) + ExampleGroupText(2) + ExampleGroupText(3) + ExampleGroupText(4)
    ensures ChunkTokens(cs) == ExampleGroupTokens(0) + ExampleGroupTokens(1) + ExampleGroupTokens(2) + ExampleGroupTokens(3) + ExampleGroupTokens(4)
  {
    ExampleAtoms();
    ExampleGroupLayout(0);
    ExampleGroupLayout(1);
    ExampleGroupLayout(2);
    ExampleGroupLayout(3);
    ExampleGroupLayout(4);
    ExampleGroupSpells(0);
    ExampleGroupSpells(1);
    ExampleGroupSpells(2);
    ExampleGroupSpells(3);
    ExampleGroupSpells(4);
    ExampleGroupKept(0);
    ExampleGroupKept(1);
    ExampleGroupKept(2);
    ExampleGroupKept(3);
    ExampleGroupKept(4);
    LayoutAppend(ExampleGroup(0), ExampleGroup(1));
    LayoutAppend(ExampleGroup(0) + ExampleGroup(1), ExampleGroup(2));
    LayoutAppend(ExampleGroup(0) + ExampleGroup(1) + ExampleGroup(2), ExampleGroup(3));
    LayoutAppend(ExampleGroup(0) + ExampleGroup(1) + ExampleGroup(2) + ExampleGroup(3), ExampleGroup(4));
  }

  lemma ExampleTokens(ts: seq<string>)
    requires ts == ExampleGroupTokens(0) + ExampleGroupTokens(1) + ExampleGroupTokens(2) + ExampleGroupTokens(3) + ExampleGroupTokens(4)
    ensures ts == ["(", "begin", "(", "define", "r", "10", ")",
                   "(", "*", "pi", "(", "*", "r", "r", ")", ")", ")"]
  {
  }

  lemma ExampleText(t: string)
    requires t == ExampleGroupText(0) + ExampleGroupText(1) + ExampleGroupText(2) + ExampleGroupText(3) + ExampleGroupText(4)
    ensures t == "(begin (define r 10) (* pi (* r r)))"
  {
  }

  /** Some layout of chunks spells the example of main_test.go:9-22. */
  lemma ExampleHasLayout()
    ensures exists cs :: ExampleChunkFacts(cs)
  {
    var cs := ExampleGroup(0) + ExampleGroup(1) + ExampleGroup(2) + ExampleGroup(3) + ExampleGroup(4);
    ExampleLayout(cs);
    ExampleTokens(ChunkTokens(cs));
    ExampleText(Flatten(cs));
    assert ExampleChunkFacts(cs);
  }

  ghost predicate ExampleChunkFacts(cs: seq<string>)
  {
    && Layout(cs) && cs != [] && cs[0] == "(" && cs[|cs| - 1] == ")"
    && Flatten(cs) == "(begin (define r 10) (* pi (* r r)))"
    && ChunkTokens(cs) == ["(", "begin", "(", "define", "r", "10", ")",
                           "(", "*", "pi", "(", "*", "r", "r", ")", ")", ")"]
  }

  /** The example of main_test.go:9-22. The text is a parameter fixed by the requires, so that the literal is
      unfolded here and not in the callers of this lemma. */
  lemma TokenizeExample(input: string)
    requires input == "(begin (define r 10) (* pi (* r r)))"
    ensures Tokenize(input) ==
      Ok(["(", "begin", "(", "define", "r", "10", ")",
          "(", "*", "pi", "(", "*", "r", "r", ")", ")", ")"])
  {
    ExampleHasLayout();
    var cs :| ExampleChunkFacts(cs);
    TokenizeLayout(cs);
  }
}
