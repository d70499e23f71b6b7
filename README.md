# lisgo in Dafny

A model of `main.go` of lisgo, a small Lisp reader and evaluator in Go, with
proofs about it. The program turns a line of text into tokens, reads the
tokens into an expression tree, and evaluates the tree in a mutable
environment. The environment starts out holding `pi`, the binary procedure
`*` and the variadic procedure `begin`, and the `define` special form adds
bindings to it.

The model takes the same three steps.

- `expr.dfy` (module `Expr`) defines the expressions. They are symbols,
  numbers (exact reals), lists, and the two built-in procedures, written as
  tags instead of Go closures. It also defines the error values that stand in
  for each Go panic and each `nil` result.
- `tokenizer.dfy` (module `Tokenizer`) defines `tokenize` as a function. It
  gives the padding with spaces, the `\s+` split (Go `regexp` semantics,
  `Split(s, -1)`), and the slice that drops the first and the last piece. It
  proves what the tokens look like, what text they keep, when `tokenize`
  fails, and the token list of the repository's test input.
- `numbers.dfy` (module `Numbers`) defines the decimal syntax that
  `strconv.ParseFloat` accepts, which `atom` uses to tell a number from a
  symbol. It is a scanner that reads one character at a time: an optional
  sign, digits with at most one point, and an optional exponent (`e` or `E`,
  an optional sign, digits). The value is every mantissa digit read as one
  integer, shifted by ten to the power of the exponent less the number of
  digits after the point. The file proves what integers, decimals, numbers
  with an exponent of either sign and signed spellings parse as, and which
  tokens are not numbers.
- `reader.dfy` (module `Reader`) defines:
  - `atom`;
  - a specification function `Read` for `readInternal`;
  - `readInternal` itself as a method with the cursor loop of the source,
    proved equal to `Read`;
  - `readFromTokens`.

  It proves how many tokens the reader consumes, that a list is balanced,
  that trailing tokens are ignored, and that reading the spelling of a
  readable expression gives the expression back. A readable expression is
  built from non-negative integer Numbers, symbols and lists of these. A
  readable symbol's name is non-empty, holds no whitespace and no
  parenthesis (`Tokenizer.IsAtomText`), and does not parse as a number.
- `environment.dfy` (module `Environment`) defines `standardEnv` and the
  `Env` class. The class holds its `envmap` field, with `update` and
  `find`.
- `semantics.dfy` (module `Semantics`) defines what `eval` and `evalList`
  compute. These are functions from an environment and an expression to a
  result and the environment afterwards. The file also proves the
  evaluation laws: numbers, symbols, `define`, `*`, `begin`, and
  left-to-right argument evaluation.
- `interp.dfy` (module `Interp`) defines the `Interpreter` class. Its `eval`
  and `evalList` are methods that update the environment object in place.
  Each is proved to compute what `Semantics` describes.
- `example.dfy` (module `Example`) takes the program
  `(begin (define r 10) (* pi (* r r)))` from text to tokens to tree to the
  value `314.1592`.

Go's `nil` results and runtime panics are modelled as `Err` values of
`Expr.Error`:

| Go behaviour | error in the model |
|---|---|
| `tokenize` of input with no whitespace after padding (`slice[1:0]` panics) | `NoWhitespace` |
| `readInternal` on no tokens | `EmptyTokens` |
| `readInternal` on a `)` first token | `UnexpectedClose` |
| the `tokens[idx]` loop running off the end | `UnexpectedEnd` |
| an unbound symbol | `UnboundSymbol` |
| `eval` of a procedure value (the `default` case) | `NotEvaluable` |
| `list[0]` of an empty list | `EmptyList` |
| the failed type assertions of `define` | `MalformedDefine` |
| missing operands of a `BinaryFunc` | `MissingOperand` |
| operands of a `BinaryFunc` that are not numbers | `NotANumber` |
| `begin` with no arguments (`exps[len(exps)-1]` panics) | `NoArguments` |
| a list whose head is not a symbol or a procedure | `NotCallable` |

An error ends the evaluation it occurs in and is passed upwards (see
"## Left out").

## Model

| member | source | states |
|---|---|---|
| Tokenizer.ReplaceAll | main.go:34-35 | `strings.ReplaceAll` with a one-character pattern; it is specified by Tokenizer.PadIsPadEach |
| Tokenizer.Pad | main.go:34-35 | the two `ReplaceAll` calls; specified by Tokenizer.PadIsPadEach, Tokenizer.PadEachRemoveSpaces and Tokenizer.SplitParens |
| Tokenizer.Split | main.go:36 | the regexp split always returns at least one piece |
| Tokenizer.SplitSingle | main.go:36 | the split has exactly one piece if and only if the text has no whitespace |
| Tokenizer.SplitHead | main.go:36 | the first piece is empty exactly when the text is empty or starts with whitespace; otherwise it starts with the text's first character |
| Tokenizer.SplitLast | main.go:36 | the last piece is empty exactly when the text is empty or ends with whitespace |
| Tokenizer.SplitMiddle | main.go:36 | only the first and the last piece can be empty |
| Tokenizer.SplitNoSpace | main.go:36 | no piece contains whitespace |
| Tokenizer.SplitParens | main.go:34-36 | once every parenthesis has been padded, each piece is a lone parenthesis or holds no parenthesis |
| Tokenizer.PadIsPadEach | main.go:34-35 | the two `ReplaceAll` calls equal padding each parenthesis character by character |
| Tokenizer.PadEachRemoveSpaces | main.go:34-35 | padding only adds whitespace: without whitespace, the padded text equals the input |
| Tokenizer.Tokenize | main.go:33-38 | `tokenize`: pad, split, drop the first and the last piece; specified by Tokenizer.TokenizeFails, Tokenizer.TokenizeShape, Tokenizer.TokenizeWords, Tokenizer.TokenizeKeepsText and Tokenizer.TokenizeLayout |
| Tokenizer.TokenizeFails | main.go:33-38 | `tokenize` fails if and only if the input has no whitespace and no parenthesis |
| Tokenizer.TokenizeShape | main.go:33-38 | every token is `(`, `)`, or a non-empty word with no whitespace and no parenthesis |
| Tokenizer.TokenizeWords | main.go:33-38 | for input that starts with `(` and ends with `)`, the tokens are exactly the non-empty words of the padded input, in order |
| Tokenizer.TokenizeKeepsText | main.go:33-38 | for such input, the tokens joined together equal the input with its whitespace removed |
| Tokenizer.TokenizeLayout | main.go:33-38 | input laid out as parentheses, atoms and blanks tokenizes to its parentheses and atoms, in order |
| Tokenizer.TokenizeExample | main_test.go:9-22 | the test input tokenizes to exactly the 17 expected tokens |
| Numbers.ParseNumber | main.go:72 | the `strconv.ParseFloat` test of `atom`, as a scanner; specified by the Numbers lemmas below |
| Numbers.ParseDigits | main.go:72 | a non-empty string of digits parses as its decimal value |
| Numbers.ParseNatText | main.go:72 | the decimal spelling of every natural number parses as that number |
| Numbers.NotNumberText | main.go:72 | a token with a character other than a digit, a sign, `.`, `e` or `E` does not parse as a number |
| Numbers.ParseDecimal | main.go:72 | `whole.frac`, with at least one of the two digit runs non-empty, parses as the value of the whole part plus the fraction over ten to the power of its length |
| Numbers.ParseScientific | main.go:72 | `m e x` and `m E x` with digit runs `m` and `x` parse as the value of `m` times ten to the power of the value of `x` |
| Numbers.ParseExponent | main.go:72 | a mantissa `whole.frac` or `whole`, an exponent marker, an optional sign and digits `x` parse as the decimal value of the mantissa multiplied by ten to the power of the value of `x`, or divided by it when the sign is `-` |
| Numbers.ScanFlipsSign | main.go:72 | once past the sign, the sign flag only negates the number the rest of the text denotes, and a rejected rest stays rejected |
| Numbers.ParseSigned | main.go:72 | before a digit or a point, a leading `-` negates the parsed number (or keeps a syntax error) and a leading `+` changes nothing |
| Numbers.ParsePi | main.go:93 | `3.141592` parses as the number bound to `pi` |
| Reader.Atom | main.go:71-78 | `atom` is total: its result is a Number, or the Symbol with exactly the token's spelling |
| Reader.AtomOfNat | main.go:71-78 | a natural number's spelling becomes that Number |
| Reader.AtomOfName | main.go:71-78 | a token that contains a non-numeric character becomes the Symbol with the same spelling |
| Reader.AtomOfPi | main.go:71-78 | `3.141592` becomes the Number 3.141592 |
| Reader.Read | main.go:45-69 | on success the reader consumes n tokens with 1 <= n <= the number of tokens, so the loop of main.go:53-61 advances |
| Reader.ReadItems | main.go:53-61 | on success the loop stops at a `)` inside the tokens and at or after its start |
| Reader.ReadFirstToken | main.go:46-67 | no tokens fails with EmptyTokens; a first `)` fails with UnexpectedClose; an atom consumes exactly one token; a list ends with a `)` at index n-1 |
| Reader.ReadInternal | main.go:45-69 | the loop that advances `idx` and appends to `list` computes exactly `Read` |
| Reader.First | main.go:40-43 | `readFromTokens` as a function of the tokens: the expression that `Read` finds, without the count of tokens consumed, or its error; specified by Reader.FirstIgnoresTrailing, and computed by the method Reader.ReadFromTokens |
| Reader.ReadFromTokens | main.go:40-43 | returns the expression that `Read` finds, or its error |
| Reader.ReadBalanced | main.go:51-63 | the consumed tokens are balanced, and every proper non-empty prefix of a list has more `(` than `)` |
| Reader.ReadExtend | main.go:45-69 | appending tokens after a complete expression does not change what is read |
| Reader.ReadTruncate | main.go:45-69 | reading only the consumed tokens gives the same result |
| Reader.FirstIgnoresTrailing | main.go:40-43 | `readFromTokens` returns the first complete expression and ignores any trailing tokens |
| Reader.ReadUnparse | main.go:45-69 | reading the token spelling of any readable expression, followed by anything, gives the expression back and consumes exactly its spelling |
| Reader.ReadUnclosed | main.go:53-56 | a list with no `)` anywhere after its `(`, nested lists included, fails with UnexpectedEnd |
| Reader.ReadExample | main_test.go:9-22 | the 17 test tokens read as `(begin (define r 10) (* pi (* r r)))` |
| Environment.StandardEnv | main.go:91-97 | `standardEnv`; specified by Environment.StandardEnvContents |
| Environment.Lookup | main.go:103-105 | a map index finds something if and only if the name is bound, and then it finds the binding |
| Environment.StandardEnvContents | main.go:91-97 | the standard environment binds exactly `pi` to 3.141592, `*` to the binary multiply and `begin` to the variadic procedure |
| Environment.LookupAfterBind | main.go:99-105 | after binding a name, it finds the new expression and every other name finds what it found before |
| Environment.Env.constructor | main.go:86-89 | a new environment holds the standard bindings |
| Environment.Env.Update | main.go:99-101 | `update` replaces one binding: `find` of that name returns the new expression, and every other name's `find` is unchanged |
| Environment.Env.Find | main.go:103-105 | `find` returns the binding of a bound name and nothing (Go's nil) for an unbound one |
| Semantics.Eval | main.go:132-148 | evaluation keeps only Numbers and procedures in the environment, and a successful result is one of them |
| Semantics.EvalList | main.go:150-189 | evaluating a list keeps only Numbers and procedures in the environment, and a successful result is one of them; the branches are specified by Semantics.EvalDefine, Semantics.EvalDefineMalformed, Semantics.EvalMul, Semantics.EvalBegin and Semantics.RedispatchAgrees |
| Semantics.EvalArgs | main.go:167-169 | evaluating the arguments yields one value for each argument |
| Semantics.Mul | main.go:173-177 | `*` succeeds if and only if its first two operands are Numbers, and then returns their product |
| Semantics.EvalAtoms | main.go:135-140 | a Number evaluates to itself; a Symbol evaluates to its binding, or fails with UnboundSymbol; neither changes the environment |
| Semantics.EvalPi | main.go:93 | `pi` evaluates to 3.141592 in the standard environment |
| Semantics.EvalDefine | main.go:157-163 | `(define s e ...)` evaluates `e`, binds the value to `s` on top of whatever `e`'s evaluation did, and returns the value; a failing `e` binds nothing |
| Semantics.EvalDefineMalformed | main.go:157-159 | a `define` with fewer than two operands, or whose name is not a symbol, fails and changes nothing |
| Semantics.EvalNoDefine | main.go:132-189 | an expression that contains no `define` leaves the environment unchanged |
| Semantics.EvalArgsNumbers | main.go:181-183 | evaluating values that are all Numbers a second time gives them back unchanged |
| Semantics.EvalArgsProc | main.go:145-146 | evaluating a procedure value a second time fails |
| Semantics.RedispatchAgrees | main.go:165-184 | evaluating the rebuilt list of a procedure and argument values is the same as applying the procedure directly, when the procedure is `*`, or is `begin` with arguments that are all Numbers |
| Semantics.EvalArgsAppend | main.go:167-169 | the arguments are evaluated left to right: the values of `a + b` are those of `a`, then those of `b` evaluated in the environment `a` left |
| Semantics.EvalArgsPair | main.go:167-169 | two arguments are evaluated in order, the second in the environment the first left |
| Semantics.EvalMul | main.go:165-177 | `(* a b)` returns the product of the values of `a` and `b` |
| Semantics.EvalBegin | main.go:179-184 | when every argument value is a Number, `(begin a1 ... ak)` evaluates its arguments left to right and returns the value of `ak`, or NoArguments when k = 0 |
| Semantics.EvalBeginProcedure | main.go:165-170 | when the first argument value of `begin` that is not a Number is a procedure, the second evaluation of the re-dispatch fails with NotEvaluable |
| Semantics.DefineThenUse | main.go:157-184 | in `(begin (define s e) s)` the definition is visible to the later argument, which evaluates to the value of `e` |
| Interp.Interpreter.constructor | main.go:127-130 | a new interpreter owns a fresh environment holding the standard bindings |
| Interp.Interpreter.Eval | main.go:132-148 | `eval` returns, and leaves in the environment, exactly what `Semantics.Eval` describes |
| Interp.Interpreter.EvalList | main.go:150-189 | `evalList` returns, and leaves in the environment, exactly what `Semantics.EvalList` describes |
| Interp.Interpreter.EvalDefine | main.go:157-163 | the `define` branch, updating `envmap` in place, agrees with `Semantics.EvalList` |
| Interp.Interpreter.EvalCall | main.go:164-171 | the loop that appends argument values, followed by the re-dispatch, agrees with `Semantics.EvalList` |
| Interp.Interpreter.EvalBinary | main.go:173-177 | the BinaryFunc branch agrees with `Semantics.EvalList` |
| Interp.Interpreter.EvalVariadic | main.go:179-184 | the loop that appends to `exps`, followed by `begin`, agrees with `Semantics.EvalList` |
| Example.EvalExample | main.go:91-189 | `(begin (define r 10) (* pi (* r r)))` evaluates to 314.1592 and leaves `r` bound to 10 |
| Example.RunExample | main_test.go:9-22 | the test input tokenizes to the expected tokens, reads as the program, and evaluates to 314.1592 |

## Left out

- Numbers are exact reals. The model does not capture `float64` rounding,
  so `*` is exact multiplication.
- Reader.Atom: the number test covers the decimal syntax of
  `strconv.ParseFloat`: an optional sign, digits with an optional fraction,
  and an optional exponent. It does not accept `inf`, `nan`, hexadecimal
  floats or digit-separating underscores. It does not model the range error
  for values too large for `float64`: for `1e400`, `ParseFloat` returns
  `ErrRange`, so `atom` gives the Symbol `1e400`, and the model gives the
  Number 10^400.
- The `Value()` renderings (main.go:21-31, main.go:111-119) only format
  values as text, so they are not modelled.
- `regexp.MustCompile` is not modelled as a library. The split on `\s+` is
  written out directly over Go's `\s` class (tab, newline, form feed,
  carriage return, space).
- Go's `nil` keeps flowing through an evaluation, and the model does not.
  The model returns an error and stops evaluating at the first one. In Go:
  - `(begin x 1)` with `x` unbound gives 1, and the model gives `UnboundSymbol`;
  - `(define y x)` binds `y` to `nil`, and the model binds nothing;
  - `(f 1)` with `f` unbound evaluates every argument and then gives `nil`.
    The model evaluates the arguments up to the first failure and then
    reports `UnboundSymbol`.

  The results agree whenever the Go program produces no `nil`.
- The re-dispatch of main.go:165-170 is kept as written. The rebuilt list of
  the procedure and the argument values is evaluated again, so the `begin`
  branch evaluates its already evaluated arguments a second time. That is
  the identity on Numbers (`Semantics.EvalArgsNumbers`) and an error on a
  procedure value (`Semantics.EvalArgsProc`, where Go gives `nil`).
- Semantics.EvalBegin: holds only when every argument value is a Number.
  A procedure among the values makes the re-dispatch fail with NotEvaluable
  (`Semantics.EvalBeginProcedure`), because the second evaluation of a
  procedure value gives Go's `nil`, which `begin` drops unless it is the
  last value. So `(begin (define f *) (f 2 3))` is 6 in Go, and `(begin * 1)`
  is 1, while the model gives NotEvaluable for both.
- The `fmt.Printf` output of the test (main_test.go:16-18) is I/O, so it is
  left out.
- `tokenize` always drops the first and the last piece of the split. For
  input that does not start with `(` and end with `)`, the model therefore
  drops real words, as the Go code does (`Tokenizer.TokenizeShape` holds for
  any input).
