/** The reader of main.go:40-78: `atom` classifies one token, `readInternal`
    reads one expression from the front of a token sequence and reports how
    many tokens it consumed, and `readFromTokens` keeps the expression. */
module Reader {
  import opened Expr
  import opened Numbers
  import Tokenizer

  /** atom (main.go:71-78): a Number when the token parses as one, otherwise
      the Symbol spelled by the token. */
  function Atom(token: string): (r: Exp)
    ensures r.Number? || r == Symbol(token)
  {
    match ParseNumber(token)
      case Some(v) => Number(v)
      case None => Symbol(token)
  }

  /** The decimal spelling of a natural number is read as that Number. */
  lemma AtomOfNat(n: nat)
    ensures Atom(NatText(n)) == Number(n as real)
  {
    ParseNatText(n);
  }

  /** A token with a character that no number contains is read as the
      Symbol with the same spelling. */
  lemma AtomOfName(token: string, i: nat)
    requires i < |token| && Foreign(token[i])
    ensures Atom(token) == Symbol(token)
  {
    NotNumberText(token, i);
  }

  /** The token `3.141592` is read as that number. The token is a parameter,
      as in Numbers.ParsePi. */
  lemma AtomOfPi(token: string)
    requires token == "3.141592"
    ensures Atom(token) == Number(3.141592)
  {
    ParsePi(token);
  }

  // ---------------------------------------------------------------------
  // Specification of readInternal

  /** The expression at the front of `tokens` and the number of tokens it
      spans. */
  function Read(tokens: seq<string>): (r: Result<(Exp, nat)>)
    ensures r.Ok? ==> 1 <= r.value.1 <= |tokens|
    decreases |tokens|, 1
  {
    if |tokens| == 0 then Err(EmptyTokens)
    else if tokens[0] == "(" then
      match ReadItems(tokens, 1)
        case Err(e) => Err(e)
        case Ok((items, close)) => Ok((List(items), close + 1))
    else if tokens[0] == ")" then Err(UnexpectedClose)
    else Ok((Atom(tokens[0]), 1))
  }

  /** The loop of main.go:53-61 from cursor `idx`: the expressions up to the
      next `)` at this level, and the index of that `)`. */
  function ReadItems(tokens: seq<string>, idx: nat): (r: Result<(seq<Exp>, nat)>)
    requires 1 <= idx <= |tokens|
    ensures r.Ok? ==> idx <= r.value.1 < |tokens| && tokens[r.value.1] == ")"
    decreases |tokens|, 0, |tokens| - idx, 1
  {
    if idx == |tokens| then Err(UnexpectedEnd)
    else if tokens[idx] == ")" then Ok(([], idx))
    else ReadItemsNext(tokens, idx)
  }

  /** One round of the loop: the expression at `idx`, then the loop from
      after it. */
  function ReadItemsNext(tokens: seq<string>, idx: nat): (r: Result<(seq<Exp>, nat)>)
    requires 1 <= idx < |tokens|
    ensures r.Ok? ==> idx <= r.value.1 < |tokens| && tokens[r.value.1] == ")"
    decreases |tokens|, 0, |tokens| - idx, 0
  {
    match Read(tokens[idx..])
      case Err(e) => Err(e)
      case Ok((e, n)) =>
        match ReadItems(tokens, idx + n)
          case Err(err) => Err(err)
          case Ok((rest, close)) => Ok(([e] + rest, close))
  }

  /** The items read so far in front of what the rest of the loop reads. */
  function Prepend(done: seq<Exp>, r: Result<(seq<Exp>, nat)>): Result<(seq<Exp>, nat)>
  {
    match r
      case Err(e) => Err(e)
      case Ok((items, close)) => Ok((done + items, close))
  }

  lemma PrependNothing(r: Result<(seq<Exp>, nat)>)
    ensures Prepend([], r) == r
  {
    if r.Ok? {
      assert [] + r.value.0 == r.value.0;
    }
  }

  lemma PrependTwice(done: seq<Exp>, e: Exp, r: Result<(seq<Exp>, nat)>)
    ensures Prepend(done, Prepend([e], r)) == Prepend(done + [e], r)
  {
    if r.Ok? {
      assert done + ([e] + r.value.0) == done + [e] + r.value.0;
    }
  }

  // ---------------------------------------------------------------------
  // The reader

  /** readInternal (main.go:45-69). */
  method ReadInternal(tokens: seq<string>) returns (r: Result<(Exp, nat)>)
    ensures r == Read(tokens)
    decreases |tokens|
  {
    if |tokens| == 0 {
      return Err(EmptyTokens);
    }
    if tokens[0] == "(" {
      var list: seq<Exp> := [];
      var idx: nat := 1;
      PrependNothing(ReadItems(tokens, 1));
      while idx < |tokens| && tokens[idx] != ")"
        invariant 1 <= idx <= |tokens|
        invariant ReadItems(tokens, 1) == Prepend(list, ReadItems(tokens, idx))
        decreases |tokens| - idx
      {
        var sub := ReadInternal(tokens[idx..]);
        if sub.Err? {
          ReadItemsFail(tokens, idx);
          return Err(sub.error);
        }
        var (exp, n) := sub.value;
        ghost var after := ReadItems(tokens, idx + n);
        assert ReadItems(tokens, idx) == Prepend([exp], after) by {
          ReadItemsCons(tokens, idx, exp, n);
        }
        assert ReadItems(tokens, 1) == Prepend(list + [exp], after) by {
          PrependTwice(list, exp, after);
        }
        list := list + [exp];
        idx := idx + n;
      }
      if idx == |tokens| {
        return Err(UnexpectedEnd);
      }
      assert list + [] == list;
      idx := idx + 1;
      return Ok((List(list), idx));
    } else if tokens[0] == ")" {
      return Err(UnexpectedClose);
    } else {
      return Ok((Atom(tokens[0]), 1));
    }
  }

  /** readFromTokens (main.go:40-43): the first expression of the tokens. */
  method ReadFromTokens(tokens: seq<string>) returns (r: Result<Exp>)
    ensures r == First(tokens)
  {
    var read := ReadInternal(tokens);
    r := if read.Ok? then Ok(read.value.0) else Err(read.error);
  }

  /** The expression readFromTokens returns. */
  function First(tokens: seq<string>): Result<Exp>
  {
    match Read(tokens)
      case Err(e) => Err(e)
      case Ok((e, _)) => Ok(e)
  }

  /** The three ways readInternal ends at the first token: no token, an
      unexpected `)`, or an atom that spans one token; a list spans up to
      its matching `)`. */
  lemma ReadFirstToken(tokens: seq<string>)
    ensures tokens == [] ==> Read(tokens) == Err(EmptyTokens)
    ensures tokens != [] && tokens[0] == ")" ==> Read(tokens) == Err(UnexpectedClose)
    ensures tokens != [] && tokens[0] != "(" && tokens[0] != ")" ==>
      Read(tokens) == Ok((Atom(tokens[0]), 1))
    ensures tokens != [] && tokens[0] == "(" && Read(tokens).Ok? ==>
      Read(tokens).value.0.List? && Read(tokens).value.1 >= 2 &&
      tokens[Read(tokens).value.1 - 1] == ")"
  {
  }

  // ---------------------------------------------------------------------
  // How much the reader consumes

  /** One for every `(`, minus one for every `)`. */
  function Depth(ts: seq<string>): int
  {
    if ts == [] then 0
    else (if ts[0] == "(" then 1 else if ts[0] == ")" then -1 else 0) + Depth(ts[1..])
  }

  /** Every proper non-empty prefix of the first n tokens opens more than
      it closes. */
  predicate PrefixesOpen(ts: seq<string>, n: nat)
    requires n <= |ts|
  {
    forall k | 0 < k < n :: Depth(ts[..k]) > 0
  }

  /** No prefix of tokens[i..j] closes more than it opens. */
  predicate NeverBelow(t: seq<string>, i: nat, j: nat)
    requires i <= j <= |t|
  {
    forall k | i <= k <= j :: Depth(t[i..k]) >= 0
  }

  lemma {:induction false} DepthAppend(a: seq<string>, b: seq<string>)
    ensures Depth(a + b) == Depth(a) + Depth(b)
  {
    if a == [] {
      assert a + b == b;
    } else {
      assert (a + b)[1..] == a[1..] + b;
      DepthAppend(a[1..], b);
    }
  }

  /** What readInternal consumes is one atom, or a `(` whose matching `)` is
      the last token consumed: the consumed tokens are balanced and every
      proper prefix of them is open. */
  lemma {:induction false} ReadBalanced(tokens: seq<string>)
    requires Read(tokens).Ok?
    ensures var n := Read(tokens).value.1;
      Depth(tokens[..n]) == 0 && PrefixesOpen(tokens, n)
    decreases |tokens|, 1
  {
    var n := Read(tokens).value.1;
    if tokens[0] == "(" {
      var close := ReadItems(tokens, 1).value.1;
      ReadItemsBalanced(tokens, 1);
      assert n == close + 1;
      assert tokens[..n] == ["("] + tokens[1..close] + [")"];
      DepthAppend(["("] + tokens[1..close], [")"]);
      DepthAppend(["("], tokens[1..close]);
      forall k | 0 < k < n
        ensures Depth(tokens[..k]) > 0
      {
        assert tokens[..k] == ["("] + tokens[1..k];
        DepthAppend(["("], tokens[1..k]);
      }
    } else {
      assert tokens[..1] == [tokens[0]];
    }
  }

  /** The tokens of the items of a list are balanced, and no prefix of them
      closes more than it opens. */
  lemma {:induction false} ReadItemsBalanced(tokens: seq<string>, idx: nat)
    requires 1 <= idx <= |tokens|
    requires ReadItems(tokens, idx).Ok?
    ensures var close := ReadItems(tokens, idx).value.1;
      Depth(tokens[idx..close]) == 0 && NeverBelow(tokens, idx, close)
    decreases |tokens|, 0, |tokens| - idx
  {
    var close := ReadItems(tokens, idx).value.1;
    if tokens[idx] == ")" {
      assert close == idx;
    } else {
      ReadItemsStep(tokens, idx);
      ReadBalanced(tokens[idx..]);
      ReadItemsBalanced(tokens, idx + Read(tokens[idx..]).value.1);
      BalancedStep(tokens, idx);
    }
  }

  /** One balanced expression at `idx`, then balanced items up to where the
      loop stops: balanced items from `idx`. */
  lemma BalancedStep(tokens: seq<string>, idx: nat)
    requires 1 <= idx <= |tokens|
    requires ReadItems(tokens, idx).Ok? && tokens[idx] != ")"
    requires Read(tokens[idx..]).Ok?
    requires var n := Read(tokens[idx..]).value.1;
      Depth(tokens[idx..][..n]) == 0 && PrefixesOpen(tokens[idx..], n)
    requires idx + Read(tokens[idx..]).value.1 <= |tokens|
    requires ReadItems(tokens, idx + Read(tokens[idx..]).value.1).Ok?
    requires ReadItems(tokens, idx + Read(tokens[idx..]).value.1).value.1 == ReadItems(tokens, idx).value.1
    requires var n := Read(tokens[idx..]).value.1;
      var close := ReadItems(tokens, idx + n).value.1;
      Depth(tokens[idx + n..close]) == 0 && NeverBelow(tokens, idx + n, close)
    ensures var close := ReadItems(tokens, idx).value.1;
      Depth(tokens[idx..close]) == 0 && NeverBelow(tokens, idx, close)
  {
    var n := Read(tokens[idx..]).value.1;
    var close := ReadItems(tokens, idx).value.1;
    ItemPrefixes(tokens, idx, n);
    BalancedThenOpen(tokens, idx, idx + n, close);
  }

  /** A successful loop that does not stop at `idx` reads one expression
      there and then stops where the loop from after it stops. */
  lemma ReadItemsStep(tokens: seq<string>, idx: nat)
    requires 1 <= idx <= |tokens|
    requires ReadItems(tokens, idx).Ok? && tokens[idx] != ")"
    ensures Read(tokens[idx..]).Ok?
    ensures idx + Read(tokens[idx..]).value.1 <= |tokens|
    ensures ReadItems(tokens, idx + Read(tokens[idx..]).value.1).Ok?
    ensures ReadItems(tokens, idx + Read(tokens[idx..]).value.1).value.1 == ReadItems(tokens, idx).value.1
  {
  }

  /** The balance facts of one expression read at `idx`, stated on slices of
      the whole token sequence. */
  lemma ItemPrefixes(tokens: seq<string>, idx: nat, n: nat)
    requires idx + n <= |tokens|
    requires Depth(tokens[idx..][..n]) == 0 && PrefixesOpen(tokens[idx..], n)
    ensures Depth(tokens[idx..idx + n]) == 0 && NeverBelow(tokens, idx, idx + n)
  {
    assert tokens[idx..][..n] == tokens[idx..idx + n];
    forall k | idx <= k <= idx + n
      ensures Depth(tokens[idx..k]) >= 0
    {
      assert tokens[idx..k] == tokens[idx..][..k - idx];
    }
  }

  /** A balanced stretch whose prefixes never close more than they open,
      followed by a stretch with the same property for its prefixes. */
  lemma BalancedThenOpen(t: seq<string>, i: nat, j: nat, m: nat)
    requires i <= j <= m <= |t|
    requires Depth(t[i..j]) == 0 && NeverBelow(t, i, j) && NeverBelow(t, j, m)
    ensures Depth(t[i..m]) == Depth(t[j..m])
    ensures NeverBelow(t, i, m)
  {
    assert t[i..m] == t[i..j] + t[j..m];
    DepthAppend(t[i..j], t[j..m]);
    forall k | j < k <= m
      ensures Depth(t[i..k]) >= 0
    {
      assert t[i..k] == t[i..j] + t[j..k];
      DepthAppend(t[i..j], t[j..k]);
    }
  }

  // ---------------------------------------------------------------------
  // Tokens after the first expression are not read

  /** Appending tokens after a complete expression changes nothing. */
  lemma {:induction false} ReadExtend(tokens: seq<string>, more: seq<string>)
    requires Read(tokens).Ok?
    ensures Read(tokens + more) == Read(tokens)
    decreases |tokens|, 1
  {
    var all := tokens + more;
    assert all[0] == tokens[0];
    if tokens[0] == "(" {
      ReadItemsExtend(tokens, more, 1);
    }
  }

  lemma {:induction false} ReadItemsExtend(tokens: seq<string>, more: seq<string>, idx: nat)
    requires 1 <= idx <= |tokens|
    requires ReadItems(tokens, idx).Ok?
    ensures ReadItems(tokens + more, idx) == ReadItems(tokens, idx)
    decreases |tokens|, 0, |tokens| - idx
  {
    var all := tokens + more;
    assert all[idx] == tokens[idx];
    if tokens[idx] != ")" {
      var sub := tokens[idx..];
      assert all[idx..] == sub + more;
      ReadExtend(sub, more);
      ReadItemsExtend(tokens, more, idx + Read(sub).value.1);
    }
  }

  /** The consumed tokens alone read the same expression. */
  lemma {:induction false} ReadTruncate(tokens: seq<string>)
    requires Read(tokens).Ok?
    ensures Read(tokens[..Read(tokens).value.1]) == Read(tokens)
    decreases |tokens|, 1
  {
    var n := Read(tokens).value.1;
    var cut := tokens[..n];
    assert cut[0] == tokens[0];
    if tokens[0] == "(" {
      ReadItemsTruncate(tokens, 1, n);
    }
  }

  /** The loop reads the same items from any prefix that still holds the
      closing `)`. */
  lemma {:induction false} ReadItemsTruncate(tokens: seq<string>, idx: nat, m: nat)
    requires 1 <= idx <= |tokens|
    requires ReadItems(tokens, idx).Ok?
    requires ReadItems(tokens, idx).value.1 < m <= |tokens|
    ensures ReadItems(tokens[..m], idx) == ReadItems(tokens, idx)
    decreases |tokens|, 0, |tokens| - idx, 2
  {
    var cut := tokens[..m];
    assert cut[idx] == tokens[idx];
    if tokens[idx] != ")" {
      var e, n := TruncateFirst(tokens, idx, m);
      ReadItemsTruncate(tokens, idx + n, m);
      TruncateStep(tokens, cut, idx, e, n);
    } else {
      assert idx < |cut|;
      assert ReadItems(cut, idx) == Ok(([], idx));
    }
  }

  /** The expression read at `idx` is read alike from the prefix, and the
      loop after it still stops before `m`. */
  lemma TruncateFirst(tokens: seq<string>, idx: nat, m: nat) returns (e: Exp, n: nat)
    requires 1 <= idx <= |tokens|
    requires ReadItems(tokens, idx).Ok? && tokens[idx] != ")"
    requires ReadItems(tokens, idx).value.1 < m <= |tokens|
    ensures Read(tokens[idx..]) == Ok((e, n)) && Read(tokens[..m][idx..]) == Ok((e, n))
    ensures 1 <= idx + n <= |tokens| && idx + n <= m
    ensures ReadItems(tokens, idx + n).Ok? && ReadItems(tokens, idx + n).value.1 < m
    ensures idx < m && tokens[..m][idx] == tokens[idx]
    decreases |tokens|, 0, |tokens| - idx, 1
  {
    ReadItemsStep(tokens, idx);
    e, n := Read(tokens[idx..]).value.0, Read(tokens[idx..]).value.1;
    assert Read(tokens[idx..]) == Ok((e, n));
    ReadInPrefix(tokens, idx, m, e, n);
  }

  /** An expression read at `idx` is read alike from a prefix that holds all
      of its tokens. */
  lemma ReadInPrefix(tokens: seq<string>, idx: nat, m: nat, e: Exp, n: nat)
    requires 1 <= idx && idx + n <= m <= |tokens|
    requires Read(tokens[idx..]) == Ok((e, n))
    ensures Read(tokens[..m][idx..]) == Ok((e, n))
    decreases |tokens|, 0, |tokens| - idx, 0
  {
    var sub := tokens[idx..];
    var cut := tokens[..m];
    ReadTruncate(sub);
    assert cut[idx..] == sub[..n] + cut[idx + n..];
    ReadExtend(sub[..n], cut[idx + n..]);
  }

  /** The step of ReadItemsTruncate: both loops read the same expression at
      `idx` and go on alike after it. */
  lemma TruncateStep(tokens: seq<string>, cut: seq<string>, idx: nat, e: Exp, n: nat)
    requires 1 <= idx < |cut| <= |tokens| && cut[idx] == tokens[idx] != ")"
    requires Read(tokens[idx..]) == Ok((e, n)) && Read(cut[idx..]) == Ok((e, n))
    requires idx + n <= |cut| && ReadItems(cut, idx + n) == ReadItems(tokens, idx + n)
    ensures ReadItems(cut, idx) == ReadItems(tokens, idx)
  {
    ReadItemsCons(tokens, idx, e, n);
    ReadItemsCons(cut, idx, e, n);
  }

  /** An expression that cannot be read ends the loop with its error. */
  lemma ReadItemsFail(tokens: seq<string>, idx: nat)
    requires 1 <= idx < |tokens| && tokens[idx] != ")"
    requires Read(tokens[idx..]).Err?
    ensures ReadItems(tokens, idx) == Err(Read(tokens[idx..]).error)
  {
  }

  /** No closing parenthesis anywhere in `ts`. */
  predicate NoClose(ts: seq<string>)
  {
    forall i | 0 <= i < |ts| :: ts[i] != ")"
  }

  /** A list that is never closed runs the loop of main.go:53-61 to the end
      of the tokens, the error of main.go:54-56 (for a nested list too). */
  lemma {:induction false} ReadUnclosed(ts: seq<string>)
    requires ts != [] && ts[0] == "(" && NoClose(ts)
    ensures Read(ts) == Err(UnexpectedEnd)
    decreases |ts|, 1
  {
    ReadItemsUnclosed(ts, 1);
  }

  lemma {:induction false} ReadItemsUnclosed(ts: seq<string>, idx: nat)
    requires NoClose(ts) && 1 <= idx <= |ts|
    ensures ReadItems(ts, idx) == Err(UnexpectedEnd)
    decreases |ts|, 0, |ts| - idx
  {
    if idx < |ts| {
      var sub := ts[idx..];
      assert sub[0] == ts[idx];
      if sub[0] == "(" {
        assert NoClose(sub) by {
          forall i | 0 <= i < |sub| ensures sub[i] != ")" {
            assert sub[i] == ts[idx + i];
          }
        }
        ReadUnclosed(sub);
      } else {
        assert Read(sub) == Ok((Atom(sub[0]), 1));
        ReadItemsUnclosed(ts, idx + 1);
      }
    }
  }

  /** One turn of the loop of main.go:53-61 in terms of Prepend. */
  lemma ReadItemsCons(tokens: seq<string>, idx: nat, e: Exp, n: nat)
    requires 1 <= idx < |tokens| && tokens[idx] != ")"
    requires Read(tokens[idx..]) == Ok((e, n))
    ensures idx + n <= |tokens|
    ensures ReadItems(tokens, idx) == Prepend([e], ReadItems(tokens, idx + n))
  {
  }

  /** readFromTokens returns the first complete expression and ignores the
      tokens after it. */
  lemma FirstIgnoresTrailing(tokens: seq<string>, more: seq<string>)
    requires Read(tokens).Ok?
    ensures First(tokens + more) == First(tokens)
    ensures First(tokens[..Read(tokens).value.1] + more) == First(tokens)
  {
    ReadExtend(tokens, more);
    ReadTruncate(tokens);
    ReadExtend(tokens[..Read(tokens).value.1], more);
  }

  // ---------------------------------------------------------------------
  // Reading back what is written

  /** Expressions the reader can produce and that have a canonical spelling:
      symbols that do not parse as numbers, natural numbers, and lists of
      these. */
  predicate Readable(e: Exp)
  {
    match e
      case Symbol(s) => Tokenizer.IsAtomText(s) && ParseNumber(s).None?
      case Number(v) => v >= 0.0 && v.Floor as real == v
      case List(items) => forall i | 0 <= i < |items| :: Readable(items[i])
      case Proc(_) => false
  }

  /** The tokens that spell an expression. */
  function Unparse(e: Exp): seq<string>
    requires Readable(e)
  {
    match e
      case Symbol(s) => [s]
      case Number(v) => [NatText(v.Floor)]
      case List(items) => ["("] + UnparseItems(items) + [")"]
  }

  function UnparseItems(items: seq<Exp>): seq<string>
    requires forall i | 0 <= i < |items| :: Readable(items[i])
  {
    if items == [] then [] else Unparse(items[0]) + UnparseItems(items[1..])
  }

  lemma UnparseNotEmpty(e: Exp)
    requires Readable(e)
    ensures Unparse(e) != [] && Unparse(e)[0] != ")"
  {
    match e
      case Symbol(s) =>
        assert !Tokenizer.IsParen(s[0]);
      case Number(v) =>
        assert IsDigit(NatText(v.Floor)[0]);
      case List(_) =>
  }

  /** Reading the spelling of a readable expression, with anything after it,
      gives the expression back and consumes exactly its spelling. */
  lemma {:induction false} ReadUnparse(e: Exp, more: seq<string>)
    requires Readable(e)
    ensures Read(Unparse(e) + more) == Ok((e, |Unparse(e)|))
    decreases e
  {
    var ts := Unparse(e) + more;
    match e
      case Symbol(s) =>
        assert ts[0] == s;
        assert s != "(" && s != ")" by {
          assert !Tokenizer.IsParen(s[0]);
        }
      case Number(v) =>
        var t := NatText(v.Floor);
        assert ts[0] == t;
        ParseNatText(v.Floor);
        assert t != "(" && t != ")" by {
          assert IsDigit(t[0]);
        }
      case List(items) =>
        var body := UnparseItems(items);
        assert ts == ["("] + body + ([")"] + more);
        ReadItemsUnparse(items, ts, 1);
  }

  /** A slice of `ts` that spells `a + b` spells `a` and then `b`. */
  lemma SliceSplit(ts: seq<string>, start: nat, a: seq<string>, b: seq<string>)
    requires a != [] && start + |a + b| <= |ts| && ts[start..start + |a + b|] == a + b
    ensures ts[start..start + |a|] == a && ts[start] == a[0]
    ensures ts[start + |a|..start + |a| + |b|] == b
    ensures ts[start..] == a + ts[start + |a|..]
  {
    assert ts[start..start + |a|] == ts[start..start + |a + b|][..|a|];
    assert ts[start + |a|..start + |a| + |b|] == ts[start..start + |a + b|][|a|..];
    assert ts[start] == ts[start..start + |a|][0];
    assert ts[start..] == ts[start..start + |a|] + ts[start + |a|..];
  }

  lemma ReadableTail(items: seq<Exp>)
    requires items != [] && forall i | 0 <= i < |items| :: Readable(items[i])
    ensures forall i | 0 <= i < |items[1..]| :: Readable(items[1..][i])
  {
    forall i | 0 <= i < |items[1..]|
      ensures Readable(items[1..][i])
    {
      assert items[1..][i] == items[i + 1];
    }
  }

  /** The loop reads back the items of a list from the spelling of the items,
      wherever in the tokens that spelling starts, provided a `)` comes after
      it. */
  lemma {:induction false} ReadItemsUnparse(items: seq<Exp>, ts: seq<string>, start: nat)
    requires forall i | 0 <= i < |items| :: Readable(items[i])
    requires 1 <= start && start + |UnparseItems(items)| < |ts|
    requires ts[start..start + |UnparseItems(items)|] == UnparseItems(items)
    requires ts[start + |UnparseItems(items)|] == ")"
    ensures ReadItems(ts, start) == Ok((items, start + |UnparseItems(items)|))
    decreases items
  {
    if items == [] {
      assert ts[start] == ")";
    } else {
      var n := UnparseFirst(items, ts, start);
      var close := start + n + |UnparseItems(items[1..])|;
      ReadItemsUnparse(items[1..], ts, start + n);
      assert close == start + |UnparseItems(items)|;
      ReadItemsJoin(ts, start, items, n, close);
    }
  }

  /** The first item is read back from its spelling, and the spelling of the
      other items follows it. */
  lemma UnparseFirst(items: seq<Exp>, ts: seq<string>, start: nat) returns (n: nat)
    requires items != [] && forall i | 0 <= i < |items| :: Readable(items[i])
    requires 1 <= start && start + |UnparseItems(items)| < |ts|
    requires ts[start..start + |UnparseItems(items)|] == UnparseItems(items)
    ensures ts[start] != ")" && Read(ts[start..]) == Ok((items[0], n))
    ensures forall i | 0 <= i < |items[1..]| :: Readable(items[1..][i])
    ensures start + n + |UnparseItems(items[1..])| == start + |UnparseItems(items)|
    ensures ts[start + n..start + n + |UnparseItems(items[1..])|] == UnparseItems(items[1..])
  {
    var spelled := Unparse(items[0]);
    var rest := UnparseItems(items[1..]);
    n := |spelled|;
    assert UnparseItems(items) == spelled + rest;
    UnparseNotEmpty(items[0]);
    SliceSplit(ts, start, spelled, rest);
    ReadableTail(items);
    var tail := ts[start + n..];
    ReadUnparse(items[0], tail);
  }

  /** An expression read at `start` followed by the items the loop reads
      after it. */
  lemma ReadItemsJoin(ts: seq<string>, start: nat, items: seq<Exp>, n: nat, close: nat)
    requires 1 <= start < |ts| && ts[start] != ")" && items != []
    requires Read(ts[start..]) == Ok((items[0], n)) && start + n <= |ts|
    requires ReadItems(ts, start + n) == Ok((items[1..], close))
    ensures ReadItems(ts, start) == Ok((items, close))
  {
    assert [items[0]] + items[1..] == items;
  }

  // ---------------------------------------------------------------------
  // The example of main_test.go

  /** A readable symbol spells itself. */
  lemma SymbolSpelling(s: string, i: nat)
    requires Tokenizer.IsAtomText(s) && i < |s| && Foreign(s[i])
    ensures Readable(Symbol(s)) && Unparse(Symbol(s)) == [s]
  {
    NotNumberText(s, i);
  }

  lemma TenSpelling()
    ensures Readable(Number(10.0)) && Unparse(Number(10.0)) == ["10"]
  {
    assert (10.0).Floor == 10;
    assert DigitChar(1) == '1' && DigitChar(0) == '0';
    assert NatText(1) == "1";
    assert NatText(10) == NatText(1) + [DigitChar(0)];
    assert "1" + ['0'] == "10";
  }

  lemma UnparseItemsOne(c: Exp)
    requires Readable(c)
    ensures UnparseItems([c]) == Unparse(c)
  {
    assert [c][1..] == [];
    assert Unparse(c) + [] == Unparse(c);
  }

  lemma UnparseItemsTwo(b: Exp, c: Exp)
    requires Readable(b) && Readable(c)
    ensures UnparseItems([b, c]) == Unparse(b) + Unparse(c)
  {
    assert [b, c][1..] == [c];
    UnparseItemsOne(c);
  }

  /** A list of three readable items is spelled by their spellings between
      parentheses. */
  lemma ListOfThree(a: Exp, b: Exp, c: Exp)
    requires Readable(a) && Readable(b) && Readable(c)
    ensures Readable(List([a, b, c]))
    ensures Unparse(List([a, b, c])) == ["("] + Unparse(a) + Unparse(b) + Unparse(c) + [")"]
  {
    var items := [a, b, c];
    assert UnparseItems(items) == Unparse(a) + (Unparse(b) + Unparse(c)) by {
      assert items[1..] == [b, c];
      UnparseItemsTwo(b, c);
    }
    assert Unparse(List(items)) == ["("] + UnparseItems(items) + [")"];
  }

  /** `(d r 10)` for readable symbols d and r. */
  lemma DefineSpelling(d: string, r: string)
    requires Readable(Symbol(d)) && Readable(Symbol(r))
    ensures Readable(List([Symbol(d), Symbol(r), Number(10.0)]))
    ensures Unparse(List([Symbol(d), Symbol(r), Number(10.0)])) == ["(", d, r, "10", ")"]
  {
    TenSpelling();
    ListOfThree(Symbol(d), Symbol(r), Number(10.0));
  }

  /** `(m p (m r r))` for readable symbols m, p and r, as `(* pi (* r r))`. */
  lemma AreaSpelling(m: string, p: string, r: string)
    requires Readable(Symbol(m)) && Readable(Symbol(p)) && Readable(Symbol(r))
    ensures Readable(List([Symbol(m), Symbol(p), List([Symbol(m), Symbol(r), Symbol(r)])]))
    ensures Unparse(List([Symbol(m), Symbol(p), List([Symbol(m), Symbol(r), Symbol(r)])]))
      == ["(", m, p, "(", m, r, r, ")", ")"]
  {
    var sq := List([Symbol(m), Symbol(r), Symbol(r)]);
    ListOfThree(Symbol(m), Symbol(r), Symbol(r));
    ListOfThree(Symbol(m), Symbol(p), sq);
  }

  /** The expression of `(begin (define r 10) (* pi (* r r)))`. */
  function ExampleProgram(): Exp
  {
    List([Symbol("begin"),
          List([Symbol("define"), Symbol("r"), Number(10.0)]),
          List([Symbol("*"), Symbol("pi"), List([Symbol("*"), Symbol("r"), Symbol("r")])])])
  }

  /** The symbols of the example program are readable. */
  lemma ExampleNames()
    ensures Readable(Symbol("begin")) && Readable(Symbol("define")) && Readable(Symbol("r"))
    ensures Readable(Symbol("*")) && Readable(Symbol("pi"))
  {
    SymbolSpelling("begin", 0);
    SymbolSpelling("define", 0);
    SymbolSpelling("r", 0);
    SymbolSpelling("*", 0);
    SymbolSpelling("pi", 0);
  }

  /** The tokens are a parameter fixed by the requires, so that the literal
      is unfolded here and not in the callers of this lemma. */
  lemma ProgramSpelling(ts: seq<string>)
    requires ts == ["(", "begin", "(", "define", "r", "10", ")",
                    "(", "*", "pi", "(", "*", "r", "r", ")", ")", ")"]
    ensures Readable(ExampleProgram()) && Unparse(ExampleProgram()) == ts
  {
    var def := List([Symbol("define"), Symbol("r"), Number(10.0)]);
    var area := List([Symbol("*"), Symbol("pi"), List([Symbol("*"), Symbol("r"), Symbol("r")])]);
    ExampleNames();
    DefineSpelling("define", "r");
    AreaSpelling("*", "pi", "r");
    ListOfThree(Symbol("begin"), def, area);
    assert ExampleProgram() == List([Symbol("begin"), def, area]);
    ProgramTokens(Unparse(ExampleProgram()));
  }

  /** The spellings of the parts put together. This step is a lemma of its
      own because the solver handles it within the lemma above only at a
      much higher cost. */
  lemma ProgramTokens(ts: seq<string>)
    requires ts == ["("] + ["begin"] + ["(", "define", "r", "10", ")"]
      + ["(", "*", "pi", "(", "*", "r", "r", ")", ")"] + [")"]
    ensures ts == ["(", "begin", "(", "define", "r", "10", ")",
                   "(", "*", "pi", "(", "*", "r", "r", ")", ")", ")"]
  {
  }

  /** The tokens of main_test.go:11-14 read as the example program, consuming
      all seventeen of them. The tokens are a parameter, as in
      ProgramSpelling. */
  lemma ReadExample(ts: seq<string>)
    requires ts == ["(", "begin", "(", "define", "r", "10", ")",
                    "(", "*", "pi", "(", "*", "r", "r", ")", ")", ")"]
    ensures Read(ts) == Ok((ExampleProgram(), 17))
    ensures First(ts) == Ok(ExampleProgram())
  {
    ProgramSpelling(ts);
    ReadUnparse(ExampleProgram(), []);
    assert ts + [] == ts;
  }
}
