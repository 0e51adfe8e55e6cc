# regex-eq in Dafny

A model of the core of regex-eq, a small Python library that decides
questions about regular languages. A language is written as a regular
expression or as a finite set of words. It is compiled into an NFA,
determinised by the subset construction, and wrapped in a `Regular` object.
`Regular` offers the set algebra: membership, `|`, `&`, `~`, `+`
(concatenation), `-`, `^`, emptiness, `==` and `<`.

The repository holds two revisions, and both are modelled.

- **The newer revision** (`src/regular/`):
  - NFAs are combined in place by `update_concat`, `update_star` and
    `update_union`, which refuse operands whose states overlap.
  - `DFA.intersection` runs over the union of the two alphabets. A missing
    component is a `None` sink.
  - `Node.eval` returns an NFA.
- **The older revision** (top-level `nfa.py`, `dfa.py`, `regular.py`):
  - The NFA combinators are pure: they return new automata.
  - The DFA products demand equal alphabets and raise "alphabet mismatch".
  - `Node.eval` builds a `Regular` for every node of the syntax tree.

States are `nat` handles. The source's `object()` allocation is modelled in
three ways:
- an explicit `base` handle from which constructions allocate;
- an explicit fresh start state;
- `NfaOps.Copy`, which renames every state by an offset.

An NFA is a record `(Q, S, d, q0, F)`:
- `d` maps a state and a label to a set of states;
- a label is `Eps` or a symbol;
- acceptance is the existence of a run (`NfaCore.Run`, `NfaCore.Accepts`).

A DFA maps a state and a symbol to one state. `DfaCore.Walk` returns
`None` where the table has no entry, which is where the source's lookup
raises.

Modules, following the program's structure:

| module | file | models |
|---|---|---|
| `Wrappers` | `wrappers.dfy` | `Result`, `Option` and the source's exceptions as `Error` values |
| `Words` | `words.dfy` | words, `Flatten`, fresh handles, cardinality helpers |
| `NfaCore` | `nfa_core.dfy` | the NFA record, `d`, `_add_transition`, runs and acceptance |
| `NfaOps` | `nfa_ops.dfy` | `empty`, `from_string`, `copy`, `update_concat`, `update_star`, `update_union` |
| `NfaLang` | `nfa_lang.dfy` | the language of each NFA combinator |
| `Closure` | `closure.dfy` | the epsilon closure `E`, `NFA.__iter__`, `NFA.is_empty` |
| `DfaCore` | `dfa.dfy` | the DFA record, `accept`, `complement`, `DFA.is_empty` |
| `Subset` | `subset.dfy` | `DFA.from_NFA` |
| `Product` | `product.dfy` | `intersection` with its `None` sink, and the older checked products |
| `Regex` | `regex.dfy` | `Token`, `Lexer`, `Node`, `Parser` |
| `RegexLaws` | `regex_laws.dfy` | the parser's round trip, associativity and error cases |
| `Evaluator` | `eval.dfy` | the newer `Node.eval` |
| `EvalLang` | `eval_lang.dfy` | the language of every evaluated node |
| `RegularOps` | `regular.dfy` | the newer `Regular` |
| `RegularLaws` | `regular_laws.dfy` | the newer test suite's identities and the witnesses of its defects |
| `LegacyNfa` | `legacy_nfa.dfy` | the older `from_alphabet`, `concat`, `union` |
| `LegacyRegular` | `legacy_regular.dfy` | the older `Regular` and `Node.eval` |
| `LegacyLaws` | `legacy_laws.dfy` | the older test suite |

The regular-expression semantics that every construction is measured
against is `Evaluator.Matches`. It is a definition by structure of the tree:
- a symbol matches its lexeme;
- `.` matches one printable character;
- union, concatenation and the three postfix operators have their textbook
  meaning.

## Model

| member | source | states |
|---|---|---|
| NfaCore.AddEdges | src/regular/nfa.py:89-99 | adding an edge on `l` to `t` from every state of `src` adds `t` to what `d` returns for those states and `l`. What `d` returns for any other state or label is unchanged, a missing key counting as the empty set. The keys are the old keys plus the new ones |
| NfaOps.Empty | src/regular/nfa.py:64-71 | `NFA.empty()` is valid, with one state, no accepting state, no symbol and no edge |
| NfaLang.EmptyLanguage | src/regular/nfa.py:64-71 | `NFA.empty()` accepts no word |
| NfaOps.FromString | src/regular/nfa.py:73-87 | `from_string(w)` has the states `base..base+\|w\|` and the alphabet of the characters of `w`. Its only edges go from `i` to `i+1` on `w[i]`. It starts at the first state and accepts at the last |
| NfaLang.FromStringLanguage | src/regular/nfa.py:73-87 | `from_string(w)` accepts exactly `w` |
| NfaOps.CopyDelta | src/regular/nfa.py:101-117 | the copy's table is the original's table with states and targets renamed. It has nothing below the offset |
| NfaLang.CopyLanguage | src/regular/nfa.py:101-117 | a copy accepts the same words as the original |
| NfaOps.ConcatDelta | src/regular/nfa.py:119-132 | after `update_concat`, each accepting state of the first operand gains an `Eps` edge to the second operand's start. Every other edge is unchanged |
| NfaLang.ConcatLanguage | src/regular/nfa.py:119-132 | with the states apart, the result accepts exactly the words `u + v` with `u` in the first language and `v` in the second |
| NfaOps.ConcatAll | src/regular/nfa.py:119-132 | `update_concat(*others)` fails with "states overlap" exactly when some operand meets the states gathered before it. Otherwise the states and alphabet are the union of all operands |
| NfaLang.ConcatAllLanguage | src/regular/nfa.py:119-132 | for operands that are apart, the result accepts exactly the concatenations of one word from each operand, in order |
| NfaOps.StarDelta | src/regular/nfa.py:134-145 | every accepting state gains an `Eps` edge back to the old start. The new start has only an `Eps` edge to the old start |
| NfaLang.StarLanguage | src/regular/nfa.py:134-145 | the starred NFA accepts exactly the concatenations of zero or more words of the language |
| NfaOps.UnionAll | src/regular/nfa.py:147-165 | `update_union()` with no operand changes nothing. Otherwise it fails with "states overlap" exactly when an operand meets the states gathered before it, the fresh start included. On success the states are those of all operands plus the fresh start |
| NfaOps.UnionStepDelta | src/regular/nfa.py:147-165 | each union round adds one `Eps` edge from the new start to the operand's start. Every other edge is unchanged |
| NfaLang.UnionAllLanguage | src/regular/nfa.py:147-165 | for operands that are apart, the union accepts exactly the words that the first automaton or any operand accepts |
| NfaOps.UnionFold | tests/test_nfa.py:15-26 | the union round fails with "states overlap" exactly when the operands share a state, as the test expects of two NFAs built on the same handles |
| Closure.EClose | src/regular/dfa.py:62-77 | the closure `E(R)` contains `R`, is closed under `Eps` edges and holds exactly the states that `Eps` steps reach from `R` |
| Closure.ClosureLeast | src/regular/dfa.py:62-77 | every `Eps`-closed superset of `R` contains the closure |
| Closure.Reachable | src/regular/nfa.py:51-62 | `NFA.__iter__` visits exactly the states that some word leads to from the start |
| Closure.AcceptsReach | src/regular/nfa.py:167-171 | the language is non-empty exactly when an accepting state is reachable |
| Closure.IsEmpty | src/regular/nfa.py:167-171 | `is_empty()` holds exactly when the NFA accepts no word. So an NFA with no accepting state, or whose accepting states are unreachable, is empty, as tests/test_nfa.py:28-43 expects, and one with a reachable accepting state is not |
| DfaCore.LiftDelta | src/regular/dfa.py:15-35 | a DFA seen as an NFA has no `Eps` edges. On a symbol it has one edge, to the map's target, where the map has an entry, and none elsewhere |
| DfaCore.LiftLanguage | src/regular/dfa.py:15-35 | the NFA view of a DFA accepts exactly the words its walk accepts |
| DfaCore.Accept | src/regular/dfa.py:106-114 | `accept(w)` is true exactly when the DFA accepts `w`. The lookup fails exactly when the walk meets a missing entry, and it never fails on a total DFA for a word over its alphabet |
| DfaCore.ComplementLanguage | src/regular/dfa.py:116-131 | on a total DFA, a word over the alphabet is accepted by the complement exactly when it is not accepted by the original |
| DfaCore.ComplementTwice | src/regular/dfa.py:116-131 | complementing twice gives the original DFA back |
| DfaCore.IsEmptyLanguage | src/regular/dfa.py:176-180 | when every state is reachable, `F == set()` holds exactly when the DFA accepts no word |
| Subset.HitsStep | src/regular/dfa.py:84-92 | the closure after `c` holds exactly the states where runs from the current subset on `c` followed by a word end |
| Subset.FromNfa | src/regular/dfa.py:57-104 | `from_NFA` returns a valid, total DFA over the same alphabet whose every state is reachable. It accepts exactly the NFA's words |
| Product.SinkAbsorbs | src/regular/dfa.py:149-150 | the `None` component stays `None` on every word |
| Product.SinkWalkIsWalk | src/regular/dfa.py:149-150 | from a real state the component walk with the sink is the DFA's own walk |
| Product.Product | src/regular/dfa.py:133-167 | the product over the joint alphabet is valid and total, with every state reachable. It accepts exactly where the two languages, combined by the mode, accept |
| Product.Intersection | src/regular/dfa.py:133-167 | `intersection` runs over the union of the alphabets and accepts exactly the words of both languages |
| Product.CheckedProduct | dfa.py:147-231 | the older `intersection` and `union` fail with "alphabet mismatch" exactly when the alphabets differ. Otherwise they accept exactly the words of both (for `intersection`) or of either (for `union`) language over the common alphabet |
| Regex.NextToken | src/regular/regular.py:153-198 | at the end of input the token is END and nothing is consumed. Otherwise at least one character is consumed and the rest is a suffix of the input. An ERROR token arises only from a lone trailing backslash |
| Regex.Lex | src/regular/regular.py:145-198 | the token stream ends with END and holds no earlier END |
| Regex.LexRender | src/regular/regular.py:166-198 | lexing the spelling of any lexable tokens gives those tokens back, followed by END |
| Regex.Next | src/regular/regular.py:277-282 | `_next_token` returns the pushed-back token first and empties the slot, otherwise the lexer's next token |
| Regex.Pushback | src/regular/regular.py:284-288 | `_pushback_token` fails with "pushback error" exactly when the slot is taken. Otherwise the token is read again next |
| Regex.ParseExpr | src/regular/regular.py:290-309 | `_parse_expr` returns a well-shaped tree or one of the parser's three errors, and never reads backwards |
| Regex.ParseTerm | src/regular/regular.py:311-323 | `_parse_term` returns nothing, a well-shaped tree or a parser error |
| Regex.ParseFactor | src/regular/regular.py:325-348 | `_parse_factor` consumes input whenever it returns a tree |
| Regex.ParseExponent | src/regular/regular.py:350-362 | `_parse_exponent` returns only postfix operators, consuming their token |
| Regex.Parse | src/regular/regular.py:364-368 | `parse()` returns a well-shaped tree, with every binary node having both operands and every postfix node its left one, or a parser error |
| RegexLaws.ParseShow | src/regular/regular.py:268-368 | parsing the printed form of any tree gives that tree back |
| RegexLaws.EmptyText | src/regular/regular.py:290-294 | the empty expression fails with "missing term" |
| RegexLaws.EmptyParens | src/regular/regular.py:325-333 | `()` fails with "missing term" whatever follows it |
| RegexLaws.DanglingUnion | src/regular/regular.py:296-305 | an expression followed by a trailing `\|` fails with "missing expression after '\|'" |
| RegexLaws.UnclosedParen | src/regular/regular.py:329-335 | `(` before an expression with no `)` fails with "missing ')'" |
| RegexLaws.UnionLeft | src/regular/regular.py:290-309 | `a\|b\|c` parses as `(a\|b)\|c` |
| RegexLaws.ConcatLeft | src/regular/regular.py:311-323 | `abc` parses as `(ab)c` |
| RegexLaws.StrayParen | src/regular/regular.py:364-368 | after a complete expression, a stray `)` and everything after it are ignored |
| RegexLaws.TrailingBackslash | src/regular/regular.py:193-198 | a trailing lone backslash after a complete expression is ignored |
| RegexLaws.LexEscape | src/regular/regular.py:186-198 | a backslash followed by any character `c`, an ordinary one included, is one SYMBOL token `c`, and lexing goes on after it |
| RegexLaws.EscapedOperator | src/regular/regular.py:183-198 | `\c` parses as the one-symbol tree `c` for every character `c`: an operator character, a backslash or an ordinary character |
| Evaluator.AnyOf | src/regular/regular.py:260-262 | the `.` automaton is built and its handles stay in the range it was given |
| Evaluator.Combine | src/regular/regular.py:239-255 | combining fails, with a missing right operand, exactly when a binary operator lacks its right operand |
| Evaluator.Eval | src/regular/regular.py:227-265 | `eval` fails only with a missing left operand, a missing right operand or an invalid operand. On success its handles lie in the range it allocated |
| EvalLang.AnyOfLanguage | src/regular/regular.py:260-262 | the `.` automaton accepts exactly the one-character words over the given characters |
| EvalLang.UnionDenotes | src/regular/regular.py:240-241 | a UNION node accepts the words of either operand |
| EvalLang.ConcatDenotes | src/regular/regular.py:242-243 | a CONCAT node accepts the concatenations of the operands' words |
| EvalLang.StarDenotes | src/regular/regular.py:244-245 | a STAR node accepts the concatenations of zero or more words of its operand |
| EvalLang.PlusDenotes | src/regular/regular.py:246-249 | a PLUS node, the operand followed by a starred copy, accepts the words of the operand followed by zero or more further words of it |
| EvalLang.QuestionDenotes | src/regular/regular.py:250-251 | a QUESTION node accepts the empty word and the operand's words |
| EvalLang.EvalLanguage | src/regular/regular.py:227-265 | whenever `eval` succeeds, the NFA is valid and accepts exactly the words the tree matches |
| EvalLang.EvalShaped | src/regular/regular.py:227-265 | every tree the parser builds evaluates without error |
| RegularOps.FromTree | src/regular/regular.py:40-43 | determinising the evaluated tree gives a DFA with the tree's language |
| RegularOps.FromRegex | src/regular/regular.py:36-43 | `from_regex` fails exactly when the parser fails, with the parser's error. Otherwise its language is the matches of the parsed tree |
| RegularOps.FromFinite | src/regular/regular.py:45-53 | `from_finite(L)` accepts exactly the words of `L`, and its alphabet is exactly their characters |
| RegularOps.ContainsAsWritten | src/regular/regular.py:55-58 | `w in a` as written fails exactly when `w` has a character outside the alphabet. Otherwise it is true exactly for the words of `a` |
| RegularOps.Member | src/regular/regular.py:55-58 | `w in a` as intended is true exactly for the words of `a` |
| RegularOps.And | src/regular/regular.py:60-63 | `a & b` accepts exactly the words of both, over the joint alphabet |
| RegularOps.Or | src/regular/regular.py:65-74 | `a \| b` accepts exactly the words of either, also when `a` is `b` |
| RegularOps.Invert | src/regular/regular.py:76-80 | `~a` accepts exactly the words over the alphabet of `a` that are not in `a` |
| RegularOps.Add | src/regular/regular.py:82-91 | `a + b` accepts exactly the concatenations of a word of `a` with a word of `b`, also when `a` is `b` |
| RegularOps.SubAsWritten | src/regular/regular.py:93-96 | `a - b` as written keeps a word of `a` only if it is over the alphabet of `b` and not in `b` |
| RegularOps.Sub | src/regular/regular.py:93-96 | `a - b` as intended accepts exactly the words of `a` not in `b` |
| RegularOps.XorAsWritten | src/regular/regular.py:98-101 | `a ^ b` as written keeps a word of one side only if it is over the other side's alphabet and not in it |
| RegularOps.Xor | src/regular/regular.py:98-101 | `a ^ b` as intended accepts exactly the words in exactly one of the languages |
| RegularOps.Bool | src/regular/regular.py:103-104 | `bool(a)` holds exactly when some word is in `a` |
| RegularOps.EqAsWritten | src/regular/regular.py:106-109 | `a == b` as written holds exactly when every word of each side that is over the other side's alphabet is in the other side |
| RegularOps.Eq | src/regular/regular.py:106-109 | `a == b` as intended holds exactly when the languages are equal |
| RegularOps.LtAsWritten | src/regular/regular.py:111-114 | `a < b` as written holds exactly when every word of `a` over the alphabet of `b` is in `b` |
| RegularOps.Lt | src/regular/regular.py:28 | `a < b` as documented holds exactly when `a` is a proper subset of `b` |
| RegularLaws.FromShown | src/regular/regular.py:36-43 | `from_regex` of a printed tree succeeds and has the tree's language |
| RegularLaws.PlusIsConcatStar | tests/test_regular.py:15-23 | `from_regex("a+") == from_regex("aa*")`, for every operand in place of `a` |
| RegularLaws.PlusIsNotStar | tests/test_regular.py:24-25 | `from_regex("a+") != from_regex("a*")` and `from_regex("aa*") != from_regex("a*")` for every operand without the empty word |
| RegularLaws.SymbolChain | tests/test_regular.py:35-37 | for a symbol `a`, the language of `a` lies inside that of `a?`, which lies inside that of `a*` |
| RegularLaws.SymbolChainProper | tests/test_regular.py:35-37 | both inclusions are proper: the empty word is in `a?` but not in `a`, and `aa` is in `a*` but not in `a?` |
| RegularLaws.SubsetChain | tests/test_regular.py:27-41 | `a < a?`, `a? < a*` and `a < a*` for every symbol `a`, with `<` as proper inclusion |
| RegularLaws.OrIdempotent | tests/test_regular.py:52 | `a \| a == a` for every language |
| RegularLaws.AndIdempotent | tests/test_regular.py:53 | `a & a == a` for every language |
| RegularLaws.InvertTwice | tests/test_regular.py:54 | `~(~a) == a` for every language |
| RegularLaws.AddWords | tests/test_regular.py:56 | `from_finite({u}) + from_finite({v}) == from_finite({u + v})` for all words |
| RegularLaws.SubSelf | tests/test_regular.py:57 | `a - a` equals the empty language for every language |
| RegularLaws.AddEmptyWord | tests/test_regular.py:59 | `a + from_finite({""}) == a` for every language |
| RegularLaws.AddNothing | tests/test_regular.py:60 | `a + from_finite(set())` equals the empty language for every language |
| RegularLaws.Distributes | tests/test_regular.py:62-70 | `a + (b \| c) == a + b \| a + c` for all languages |
| RegularLaws.SubWitness | src/regular/regular.py:93-96 | `from_finite({"x"}) - from_finite({""})` is empty as written and `{"x"}` as intended |
| RegularLaws.XorWitness | src/regular/regular.py:98-101 | `from_finite({"x"}) ^ from_finite({""})` lacks `"x"` as written and holds it as intended |
| RegularLaws.EqWitness | src/regular/regular.py:106-109 | `from_finite({"x"}) == from_finite(set())` holds as written but not as intended |
| RegularLaws.ContainsWitness | src/regular/regular.py:55-58 | `"b" in from_finite({"a"})` fails as written and is false as intended |
| RegularLaws.LtWitness | src/regular/regular.py:111-114 | `a < a` holds as written for every language and never as intended |
| LegacyNfa.FromAlphabet | nfa.py:62-79 | `from_alphabet(cs)` has a start state and one accepting state per symbol, distinct symbols getting distinct states. Its alphabet is `cs` |
| LegacyNfa.FromAlphabetLanguage | nfa.py:62-79 | `from_alphabet(cs)` accepts exactly the one-symbol words over `cs` |
| LegacyNfa.ConcatValid | nfa.py:81-105 | the older `concat` of valid NFAs is valid, whether or not they share states |
| LegacyNfa.ConcatApart | nfa.py:81-105 | with the states apart, the older `concat` accepts exactly the concatenations |
| LegacyNfa.ConcatSelf | nfa.py:81-105 | an NFA concatenated with itself, sharing every state, still accepts every word of its own language |
| LegacyNfa.UnionApart | nfa.py:129-152 | with the states apart and the start fresh, the older `union` is valid and accepts exactly the words of either operand |
| LegacyNfa.UnionValid | nfa.py:129-152 | the older `union` of valid NFAs is valid, whether or not they share states |
| LegacyRegular.UnionWordsLanguage | regular.py:49-51 | uniting `from_string(w)` into the accumulator for each word in turn adds exactly those words to its language |
| LegacyRegular.UnionWordsSymbols | regular.py:49-51 | the alphabet grows by exactly the characters of the added words |
| LegacyRegular.FromFinite | regular.py:44-54 | the older `from_finite(L)` accepts exactly the words of `L`, and its alphabet is exactly their characters |
| LegacyRegular.And | regular.py:61-64 | the older `a & b` fails with "alphabet mismatch" exactly when the alphabets differ. Otherwise it is the intersection over the common alphabet |
| LegacyRegular.CopyUnion | regular.py:66-73 | the fallback union of a renamed copy of `a` with `b` accepts the words of either |
| LegacyRegular.Or | regular.py:66-73 | the older `a \| b` accepts exactly the words of either, through the product when the alphabets agree and through the NFA fallback when they do not |
| LegacyRegular.Invert | regular.py:75-76 | the older `~a` is a new DFA on the states, table and start of `a`, with the same alphabet. It accepts exactly the words over the alphabet that are not in `a` |
| LegacyRegular.SharedSumLanguage | nfa.py:81-105 | the older `concat` of two DFAs on one state graph accepts exactly zero or more words of the first followed by a word of the second, because the `Eps` edges from the first's accepting states lead back to the shared start |
| LegacyRegular.AddAsWritten | regular.py:78-85 | the older `a + b` is the concatenation when the operands' states are apart. When they share one state graph (`a + a`, `a + ~a`), it accepts exactly zero or more words of `a` followed by a word of `b` |
| LegacyRegular.Sub | regular.py:87-90 | the older `a - b` fails with "alphabet mismatch" exactly when the alphabets differ. Otherwise it is the words of `a` not in `b` |
| LegacyRegular.Xor | regular.py:92-95 | the older `a ^ b` fails with "alphabet mismatch" exactly when the alphabets differ. Otherwise it is the words in exactly one side |
| LegacyRegular.Eq | regular.py:100-103 | the older `a == b` fails with "alphabet mismatch" exactly when the alphabets differ. Otherwise it holds exactly for equal languages |
| LegacyRegular.Lt | regular.py:105-108 | the older `a < b` fails with "alphabet mismatch" exactly when the alphabets differ. Otherwise it holds exactly when `a` is a subset of `b` |
| LegacyRegular.Starred | regular.py:241-242 | `Regular(DFA.from_NFA(a.dfa.star()))` keeps the alphabet and accepts exactly the concatenations of zero or more words of `a` |
| LegacyRegular.CharWordsLanguage | regular.py:254-255 | the words of `set(printable)` are exactly the one-character words over the printable characters |
| LegacyRegular.EvalErrorAgrees | regular.py:224-258 | the older `eval` fails exactly where the newer one does, with the same error, whatever handles the newer one starts from |
| LegacyRegular.EvalLeaf | regular.py:250-257 | a SYMBOL leaf is `from_finite({lexeme})` and a DOT leaf is `from_finite(set(printable))`. Any other token is an invalid operand. The alphabet is the characters the leaf mentions |
| LegacyRegular.ApplyOp | regular.py:228-248 | applying an operator fails exactly when a binary operator lacks its right operand. Otherwise it has the node's language. Its alphabet is the left operand's, joined by the right operand's for a binary operator |
| LegacyRegular.UnionOp | regular.py:237-238 | `a \| b` on evaluated operands has the UNION node's language |
| LegacyRegular.ConcatOp | regular.py:239-240 | `a + b` on evaluated operands has the CONCAT node's language |
| LegacyRegular.StarOp | regular.py:241-242 | the starred DFA has the STAR node's language |
| LegacyRegular.PlusOp | regular.py:243-244 | `a` followed by its star has the PLUS node's language |
| LegacyRegular.QuestionOp | regular.py:245-246 | `a \| from_finite({""})` has the QUESTION node's language and the alphabet of `a` |
| LegacyRegular.EvalTree | regular.py:224-258 | the older `eval` fails exactly where the error reference says, with its error. Otherwise it has the tree's language, and its alphabet is the characters the tree mentions |
| LegacyRegular.FromRegex | regular.py:37-42 | the older `from_regex` fails exactly when the parser fails, with its error. Otherwise it has the parsed tree's language and the alphabet the tree mentions |
| LegacyRegular.AddWitness | regular.py:78-85 | with `a = from_finite({"a"})`, `"a"` is in `a + a` as written and not as intended |
| LegacyRegular.AddInvertWitness | regular.py:78-85 | with `a = from_finite({"a"})`, the empty word is in `a + ~a` as written and not as intended |
| LegacyLaws.FromShownLegacy | regular.py:37-42 | the older `from_regex` of a printed tree succeeds, with the tree's language and alphabet |
| LegacyLaws.TestEqual | test/test_regular.py:7-14 | with the older operators, `a+ == aa*`, `a+ != a*` and `aa* != a*` for every operand without the empty word. The alphabets agree, so no comparison meets an alphabet mismatch; the emptiness test is `RegularOps.Bool`, in place of the missing `is_empty()` |
| LegacyLaws.TestSubset | test/test_regular.py:16-23 | with the older operators, `a < a?`, `a? < a*` and `a < a*` for every symbol `a`, without an alphabet mismatch |

## Left out

- Printing and the command line are not modelled: every `__repr__`, `main.py` and `src/regular/__main__.py` are I/O.
- Object identity: the source's `object()` states become `nat` handles. Allocation is an explicit `base` or fresh-start parameter, and `copy()` is a renaming by an offset. The newer `Regular` operators rename the right operand apart from the left. This also covers `a.dfa is b.dfa`, where the source copies one side.
- In-place update: the newer `update_*` methods mutate `self`. The model has them as pure functions that return the updated automaton. This misses one effect of the mutation:
  - `update_concat` merges the other operand's table into its own by reference (`src/regular/nfa.py:129`), so the merged table holds the other operand's own sets.
  - The DFA constructor gives every state its own empty `Eps` set (`src/regular/dfa.py:31-33`).
  - So when `Regular.__add__` (`src/regular/regular.py:82-91`) adds the `Eps` edges from the accepting states of `a.dfa` to the start of `b.dfa`, `_add_transition` (`src/regular/nfa.py:90-91`) adds them to sets that `a.dfa` itself holds. From then on `a.dfa` carries those edges, and every automaton later built from it follows them.
  - For example, with `a = from_finite({"x"})` and `b = from_finite({"y"})`, after `a + b` the word `"xy"` is in `a | b`. In the model, `a` is unchanged.
- `from_finite` takes a Python `set`. The model takes a sequence of words; order and repetition do not change the language, and both `FromFinite` contracts say so.
- The newer `Node.eval` calls `update_union(b)` or `update_concat(b)` with `b = None` when a binary node lacks its right operand, and the older one calls `a | None`. Both crash with a Python `TypeError` or `AttributeError`. The model reports `MissingRightOperand`. The parser never builds such a node (`EvalLang.EvalShaped`).
- The "invalid operator" branches (`src/regular/regular.py:252-253`, `regular.py:247-248`) are not modelled: `Node.Operator` has exactly five members, and all five are handled.
- The "syntax error" branch of `_parse_factor` (`src/regular/regular.py:332-333`) is not modelled: `_parse_expr` never returns `None`.
- The exceptions' message strings are modelled as `Wrappers.Error` constructors, one per message.
- The newer source has several lookups and calls that cannot work as written. The model follows the evident intent for each:
  - `DFA.from_NFA` and `DFA.accept` subscript `self.d[...]`, but `d` is a method (`src/regular/nfa.py:95-99`).
  - `DFA.union` calls `NFA.union`, which the newer NFA does not define (`src/regular/dfa.py:169-174`). Nothing in the facade calls it, so it is left out.
  - `Regular.__invert__` calls `update_complement`, which is not defined. The model uses `complement()`.
  - `DFA.complement` builds its table from `self.d.items()` (`src/regular/dfa.py:125`), which fails on the method `d` with `AttributeError`. `DfaCore.Complement` reads the stored table (`d_mat`) instead, so the newer `~`, and with it every newer `-`, `^`, `==` and `<`, including the as-written rows under Findings, rests on this repair.
  - `tests/test_nfa.py` calls `a.concat` and `a.union` (`tests/test_nfa.py:25-26`), which the newer NFA does not define (it has `update_concat` and `update_union`). Its emptiness tables map keys to single states rather than sets (`tests/test_nfa.py:35-37`). `NfaOps.UnionFold` and `Closure.IsEmpty` state what those tests evidently check, on the `update_*` methods and on set-valued tables.
  - `Regular.__or__` and `__add__` pass DFAs to the NFA's `update_*` methods. The model lifts each DFA to its NFA view (`DfaCore.Lift`).
- The older `from_NFA` is modelled by `Subset.FromNfa`: the older revision's DFA and NFA tables spell out every empty entry, and the model leaves those entries out. The older `accept`, `from_string`, `star` and `complement` are modelled by `DfaCore.Accept`, `NfaOps.FromString`, `NfaOps.Star` and `DfaCore.Complement`, which build the same automata.
- The older `Regular.__or__` and `__add__` fall back to `self.dfa.copy()`, which the older revision does not define. The older `__bool__` calls `is_empty()`, which it does not define either. The model uses the newer `copy()` renaming (`NfaOps.Copy`) and `RegularOps.Bool`. As written, `a?` for any `a` with a non-empty alphabet reaches that missing `copy()` through `a | from_finite({""})`, whose alphabets differ. So the older `test_subset` fails as written even though no comparison in it meets an alphabet mismatch. Every older `==` and `<` also fails as written: each goes through `not self - other`, hence `__bool__` and the missing `is_empty()` (`regular.py:97-108`). So the older `test_equal` fails as written too, at `is_empty()`, though none of its comparisons meets an alphabet mismatch either. `LegacyLaws.TestEqual`, `LegacyLaws.TestSubset`, `LegacyRegular.Eq` and `LegacyRegular.Lt` state the results with `RegularOps.Bool` in place of `is_empty()`.
- The older `__contains__` is the newer one (`RegularOps.ContainsAsWritten`, `RegularOps.Member`).
- The older lexer and parser (`regular.py:110-361`) are the newer ones token for token, and `Regex` models both.
- The older `Node.eval` applies `+` to operands that are distinct objects, so `LegacyRegular.ConcatOp` and `LegacyRegular.PlusOp` use the renaming concatenation `RegularOps.Add`. The written `+` joins state graphs as they are. Every older DFA has fresh states except `~a`, which keeps the graph of `a`, so operands share states only when they share the whole graph: `a + a`, `a + ~a` and the like (see Findings).
- `DFA.intersection` in the newer revision fails when a component has reached the `None` sink and the next symbol is in that operand's alphabet: the loop then looks `None` up. As written, subscripting the method `d` raises `TypeError`. With `d(...)`, the empty set it returns fails the one-element unpacking with `ValueError`. The model treats the sink as absorbing (`Product.SinkAbsorbs`), which is what the `if s in self.S else {None}` guard evidently intends.
- Product.Product: sends a component on a real state to the `None` sink when the table lacks the entry for a symbol of its own alphabet. The newer source fails there instead: `(x_out,) = self.d[x, s]` raises `TypeError` as written, or `ValueError` when `d(...)` returns the empty set (`src/regular/dfa.py:149-150`). The model does not promise that failure because no caller can meet it: every DFA either facade passes in is total (`RegularOps.Good`). Where the source does not fail, the product agrees with it, and a word that would reach the missing entry is simply rejected by that component.
- Product.Intersection: inherits the same missing-entry sink from `Product.Product`, for the same reason. On total operands, which are all the facade builds, it states exactly the words of both languages.
- Product.CheckedProduct: where the older `intersection` or `union` looks up a missing entry (`d1[x, s]`, `dfa.py:170-171` and `dfa.py:213-214`), the source raises `KeyError`, or `ValueError` for an entry spelled out as the empty set. The model sinks there instead. The older facade passes only total DFAs, so that failure is never reached from it.
- LegacyRegular.Lt: states inclusion, not proper inclusion. That is what the older `__lt__` computes; the proper-inclusion defect is the same as the newer `<` row under Findings.
- LegacyRegular.AddAsWritten: states nothing for operands that share some of their states without sharing the whole graph. The older facade never builds such a pair: `from_NFA`, `intersection` and `union` allocate fresh states, and `complement` keeps the operand's graph.
- The `assertGreater` halves of both `test_subset` tests are the same relations with the operands swapped, and are not restated.

## Findings

| source | as written | input that shows it | evidently intended | confidence | as-written member | corrected member |
|---|---|---|---|---|---|---|
| src/regular/regular.py:93-96 | `a - b` is `a & ~b`. `~b` is complemented only within the alphabet of `b`, so every word of `a` with a character outside that alphabet is dropped | `from_finite({"x"}) - from_finite({""})` is empty | `{"x"}`: the words of `a` not in `b` | high; not executed | RegularOps.SubAsWritten, RegularLaws.SubWitness | RegularOps.Sub |
| src/regular/regular.py:98-101 | `a ^ b` is built from the written `-` and loses the same words | `from_finite({"x"}) ^ from_finite({""})` is `{""}` | `{"x", ""}` | high; not executed | RegularOps.XorAsWritten, RegularLaws.XorWitness | RegularOps.Xor |
| src/regular/regular.py:106-109 | `a == b` tests that both written differences are empty | `from_finite({"x"}) == from_finite(set())` is true | false: the languages differ | high; not executed | RegularOps.EqAsWritten, RegularLaws.EqWitness | RegularOps.Eq |
| src/regular/regular.py:111-114 | `a < b` is `not a - b`, which is inclusion (and loses words as `-` does), though line 28 documents a proper subset | `a < a` is true for every `a` | false: a proper subset | high; not executed | RegularOps.LtAsWritten, RegularLaws.LtWitness | RegularOps.Lt |
| src/regular/regular.py:55-58 | `w in a` calls `accept`, whose table lookup fails on a character outside the alphabet: `TypeError` as written, since `d` is a method, and `ValueError` from unpacking the empty set with `d(...)` | `"b" in from_finite({"a"})` raises | false | high; not executed | RegularOps.ContainsAsWritten, RegularLaws.ContainsWitness | RegularOps.Member |
| regular.py:78-85 | the older `+` joins the operands' state graphs without renaming. For `a + a`, and for `a + ~a`, whose complement keeps the graph of `a`, the `Eps` edges from the accepting states lead back into the shared graph | with `a = from_finite({"a"})`, `"a"` is in `a + a` and `""` is in `a + ~a` | `a + a` is `{"aa"}`, and `a + ~a` lacks `""` | high; not executed | LegacyRegular.AddAsWritten, LegacyRegular.AddWitness, LegacyRegular.AddInvertWitness | RegularOps.Add |
