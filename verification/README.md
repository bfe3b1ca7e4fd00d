# writ: a verified model of its hard core

writ gates the tool calls of an agent with a policy and keeps a hash-chained
ledger of what it decided. This project models, in Dafny 4.11, the parts of it
whose correctness is decided by code, and proves what they promise for every
input, every run and every reachable state:

- **Receipts** (`Merkle`, `Checkpoints`, `Proofs`, `Canonical`): the RFC 6962
  section 2.1 tree, the audit paths of RFC 9162 section 2.1.3.1, the
  bit-shifting verifier of section 2.1.3.2, checkpoints over a ledger and
  inclusion proofs end to end.
- **The ledger** (`Ledger`): the chain invariant, `verify_chain` and
  `verify_records`, and how a tip hash fixes everything below it.
- **The concurrent file store** (`LineScan`, `FileScan`, `FileStore`,
  `FileHandle`): any number of processes appending to one JSONL file under a
  lock, crashing after any byte, repairing tails, and being read without the lock.
- **Policy engines** (`Parser`, `Grammar`, `Printer`, `Policy`, `Cedar`, `Rego`): the `when`
  language and exactly which texts are in it, the native evaluator, and two compilers
  proved to preserve its meaning.
- **The hook gateway** (`Refs`, `Gateway`, `FileGateway`): decide, resolve and
  complete as a state machine whose only durable state is the ledger, and the
  same over runs of the file store.
- **Around them** (`Civil`, `Client`, `RowCursor`, with `Bytes`, `Text`,
  `Utf8`): calendar arithmetic under every hashed timestamp, the TypeScript
  client's transport, and the paged SQLite cursor.

`dafny verify dfyconfig.toml` checks everything.

## How the model is built

SHA-256 is a parameter (`HashFn`), a total function to 32-byte digests about
which nothing is assumed. "Or a collision" therefore never means that some
collision exists, which is always so; each theorem names the two byte strings,
computed from the data at hand (`PathCollision`, `ChainCollision`,
`EntryCollision`), that collide.

JSON is a parameter too. `Ledger.Suite.payload` is the canonical JSON of a
record; only where it matters is it required to say everything about the
record (`Faithful`). `FileScan.Format` is the line encoding, of which four
facts are used (`GoodFormat`): a record's encoding decodes to the record, holds
no newline, starts and ends with a byte that trimming keeps, and has no proper
prefix that decodes. `Witness.FormatExists` builds, for every hash function, a
format for which all of this holds at once.

Code that changes things step by step is a method or a class (`FileHandle.Store`,
`Parser.Lexer`, `Parser.Cursor`, `Cedar.Codegen`, `Rego.Codegen`,
`Gateway.Session`, `FileGateway.FileSession`, `Client.Transport`, `RowCursor.Cursor`), proved against a
function on values; the theorems are about that function. The clock, the
console's answer, what other processes append meanwhile and which events
reach the client are inputs.

Where the code departs from its comments or from what it is for, the model follows the code:

- `repair_tail` says it drops blank lines; `refresh` has consumed them, so they stay.
- `broken_at` is documented as the position of the failure; it is the failing
  record's own index field (`BrokenAtCanMislead`, and `BrokenAtIsPosition` for
  exactly when the two agree).
- `parse_rfc3339` looks at neither position 13 nor 16 (`ColonsAreUnread`), and
  accepts second 60 (`SixtyIsNext`), signed columns (`SignIsLost`) and days past
  the end of a month (`DateIsLost`). `CanonicalIff` says exactly which texts it
  accepts and renders back unchanged, and `RehashIff` what that means for a
  record that is decoded and hashed again.
- The `when` lexer reads the UTF-8 bytes of its text one at a time, each as a
  character, so a string value outside ASCII comes back as other text
  (`AccentIsLost`). `PrintParse` says what comes back, `PrintParseIff` exactly when
  that is the tree that was printed.
- Rego's code generator names a `not` helper before compiling the operand, so a
  nested `not` reuses the name: the helper then refers to itself (`RecursiveIff`
  for exactly when). The matcher of a double negation is never right
  (`DoubleNegationIsWrong`): where the operand is true the rule is skipped, which
  can let a denied call through (`DoubleNegationFailsOpen`), and where it is false
  the engine denies. That verdict is the modelled evaluator's, which tries the
  bodies of a rule in order, stops at the first true one and fails on a rule that
  waits for itself. Generation panics on a membership test of an unknown field
  (`PanicsIff`, `BrokenIff`, `UnknownFieldPanics`).
- Rego lowercases by Unicode where the other engines lowercase ASCII. A membership
  test means the same exactly where both put the value in the same list
  (`MembershipIff`); for the Kelvin sign and `*.k` they do not (`KelvinDiffers`).

The gateway's theorems ask little of the ledger, because other programs append to
it too and pair Decisions and Executions in their own ways (`writ run` records an
ask with its approver and the Execution without): it is an intact chain in which
no Execution stands before the Decision it names (`Gateway.Ordered`). What is
proved of the audit trail is about the positions the gateways wrote, against all
records before them, whoever wrote those.

## Model

| member | source | states |
|---|---|---|
| Merkle.SplitUnique | crates/writ-receipts/src/merkle.rs:33-41 | only one power of two brackets `n`, so any way of finding one finds the split |
| Merkle.SplitPower | crates/writ-receipts/src/merkle.rs:33-41 | the split is a power of two |
| Merkle.ComputeSplit | crates/writ-receipts/src/merkle.rs:34-41 | the doubling loop finds it |
| Merkle.BuildPath | crates/writ-receipts/src/merkle.rs:66-79 | pushes exactly the audit path onto the vector it is given |
| Merkle.PairUp | crates/writ-receipts/src/merkle.rs:83-109 | consuming the lowest sibling turns a path in a tree of n leaves into one in the tree of its pairs, although splits and pairs are unrelated by definition |
| Merkle.Promote | crates/writ-receipts/src/merkle.rs:83-109 | a last leaf without a sibling stands for itself one level up |
| Merkle.VerifyInclusion | crates/writ-receipts/src/merkle.rs:83-109 | the bottom-up loop on two shifted counters terminates and accepts exactly what the top-down reference semantics of a path leads to the root, for every leaf, index, size, path and root |
| Merkle.Complete | crates/writ-receipts/src/merkle.rs:33-109 | every path the builder emits leads from its leaf to the recursive root |
| Merkle.Sound | crates/writ-receipts/src/merkle.rs:43-109 | an accepted proof names the leaf really at that index and the one honest path, or `PathCollision` is two different node inputs with one hash |
| Merkle.RootIs | crates/writ-receipts/src/merkle.rs:16-60 | the root is the tree hash of RFC 6962 section 2.1 for whichever power of two brackets the leaves, prefix bytes and empty tree included |
| Merkle.InputsDiffer | crates/writ-receipts/src/merkle.rs:16-31 | no leaf input is a node input and neither is empty |
| Merkle.RootBinds | crates/writ-receipts/src/merkle.rs:16-60 | a root fixes the leaf data, their number and order included, between trees of any two sizes, or `TreeCollision` is a collision |
| Ledger.VerifyChain | crates/writ-core/src/ledger.rs:229-255 | the report's length is that of the longest intact prefix; read errors pass through; a break carries the failing record's index field |
| Ledger.VerifyRecords | crates/writ-ledger/src/verify.rs:48-86 | the same through the wrapper, which never fails: an unreadable record is a break at its position |
| Ledger.LongestIntactUnique | crates/writ-core/src/ledger.rs:229-255 | there is one longest intact prefix, so the report is determined |
| Ledger.IntactIffLongest | crates/writ-core/src/ledger.rs:229-255 | a ledger is linked from genesis exactly when its longest intact prefix is all of it |
| Ledger.SameHash | crates/writ-core/src/ledger.rs:83-104 | two records carrying the same correct hash are equal or their hash inputs collide |
| Ledger.Rigid | crates/writ-core/src/ledger.rs:229-255 | two intact chains of equal length and tip hash are equal, or `ChainCollision` is a collision |
| Ledger.BrokenAtCanMislead | crates/writ-core/src/ledger.rs:244 | a chain broken at position 0 reported as broken at 7 |
| Ledger.BrokenAtIsPosition | crates/writ-core/src/ledger.rs:229-255 | behind an intact chain, whatever follows, the first damaged item is found at its position, which is what `broken_at` says exactly when the item is unreadable or its index field is right |
| LineScan.Resume | crates/writ-ledger/src/file_store.rs:198-266 | a scan that stopped after a clean prefix and resumes sees what one scan of the whole sees, also when the newline of its last line arrives late |
| LineScan.ScanStops | crates/writ-ledger/src/file_store.rs:198-266 | where a scan stops, its prefix scans cleanly alone and a torn chunk stops it again |
| LineScan.ScanReports | crates/writ-ledger/src/file_store.rs:198-266 | the cached length, tip hash and tip record are those of the records read |
| FileStore.LineAdds | crates/writ-ledger/src/file_store.rs:198-266 | behind any cleanly scanned base a blank line adds nothing, and a line that decodes to the record with the next index and the tip as previous hash adds it |
| FileStore.LineStops | crates/writ-ledger/src/file_store.rs:198-266 | any other line with text stops the scan there: torn if it is debris, failed otherwise, so garbage in mid-file and terminated records out of sequence fail |
| FileStore.StopIff | crates/writ-ledger/src/file_store.rs:198-266 | and only such lines do: a file is torn, or fails, exactly when it has such a line behind a clean base |
| FileStore.TailIsDebris | crates/writ-ledger/src/file_store.rs:198-295 | what lies behind the last record of a file that does not fail is at most one unterminated or last undecodable line, so that is all a repair can cut |
| FileScan.TakesFirstLines | crates/writ-ledger/src/file_store.rs:198-311 | the way `refresh` takes a line obeys the rules resumption needs, for every format |
| FileScan.ScanLine | crates/writ-ledger/src/file_store.rs:198-266 | a linked record's line cut after any number of bytes is nothing, a torn tail, or the record |
| FileScan.LineTaken | crates/writ-ledger/src/file_store.rs:198-266 | how any line is taken, from its bytes and what they decode to: blank, the next record, tail debris (unterminated, or terminated with only blanks behind it, and undecodable), or corruption |
| FileScan.ReaderSeesScan | crates/writ-ledger/src/file_store.rs:407-438 | the lock-free reader yields exactly the records the link-checking scan reads, then what it makes of the bytes that stopped the scan |
| FileScan.LineYields | crates/writ-ledger/src/file_store.rs:407-438 | what the reader makes of any line: nothing of a blank or of an unterminated one that decodes to nothing, a record linked or not, an error otherwise |
| FileStore.Step | crates/writ-ledger/src/file_store.rs:198-358 | every step (open, look, lock, check, truncate, newline, write some bytes, finish, abort, crash) keeps the file intact and every handle resumable, and changes the records only by adding the one being written |
| FileStore.StepLeaves | crates/writ-ledger/src/file_store.rs:198-358 | a look, the check under the lock and a finished append leave the handle knowing the whole file, an aborted operation what it knew; a checked append goes on exactly when its record is the next |
| FileStore.HolderFrees | crates/writ-ledger/src/file_store.rs:313-358 | the lock is held exactly while its holder is alive and inside an operation, whose failure or death frees it |
| FileStore.AppendCompletes | crates/writ-ledger/src/file_store.rs:313-358 | with the lock free, whatever debris ends the file, any handle can append the next record in six steps, the last of which frees the lock |
| FileStore.RunKeepsInv | crates/writ-ledger/src/file_store.rs:198-358 | so does every interleaving of any number of writers |
| FileStore.Safety | crates/writ-ledger/src/file_store.rs:198-358 | in every state of every run, from any file `refresh` accepts as a chain, debris of any kind behind it included, the records are an intact chain, and those of every earlier state are a prefix of them |
| FileStore.HandlesDescribePrefixes | crates/writ-ledger/src/file_store.rs:76-95 | every handle's offset, length, tip hash and tip record describe a prefix of the records |
| FileStore.AckedRecordsStay | crates/writ-ledger/src/file_store.rs:313-358 | a record whose append returned Ok is at its index in every later state |
| FileStore.RefreshNeverFails | crates/writ-ledger/src/file_store.rs:198-266 | no handle of a run ever finds the file shrunk, corrupt or out of sequence, and each catches up with all of it |
| FileStore.ReaderIff | crates/writ-ledger/src/file_store.rs:394-438 | a reader of a well-formed file yields exactly its records when any debris is unterminated, and only then |
| FileStore.ReaderSeesCommitted | crates/writ-ledger/src/file_store.rs:407-438 | a reader over any reachable state, mid-write and post-crash included, yields exactly the committed records, no error, and a stream that verifies intact, if the run began without terminated debris |
| FileHandle.Store.constructor | crates/writ-ledger/src/file_store.rs:76-95 | a new handle remembers an empty chain |
| FileHandle.Store.Refresh | crates/writ-ledger/src/file_store.rs:198-266 | the loop computes the incremental scan, whose outcome `FileStore.StopIff` reads off the bytes |
| FileHandle.Store.RepairTail | crates/writ-ledger/src/file_store.rs:273-295 | cuts the file at the last record and closes its line |
| FileHandle.Store.Append | crates/writ-ledger/src/file_store.rs:313-358 | accepted exactly when the record carries its own hash, the file read on from the handle is not corrupt and the record extends its tip; then the file is the old one less its debris, plus the line, and the handle knows it; a refusal names its reason and changes no byte |
| Checkpoints.LinkProblem | crates/writ-receipts/src/ledger.rs:81-104 | no problem exactly when the record links; otherwise the first of the three that is wrong |
| Checkpoints.ScopedIs | crates/writ-receipts/src/ledger.rs:113-170 | the records of a session are those that bear its id, in ledger order |
| Checkpoints.ValidIff | crates/writ-receipts/src/receipt.rs:92-175 | a checkpoint is valid exactly when every field is in canonical form and the counts, tip and scope agree |
| Checkpoints.BuildCheckpoint | crates/writ-receipts/src/ledger.rs:113-170 | succeeds exactly on non-empty, readable, intact ledgers with a record of the session asked for, and states first hash, count, tip, both Merkle roots; each error says what prevents it and where |
| Checkpoints.CheckCheckpoint | crates/writ-receipts/src/ledger.rs:189-282 | succeeds exactly when the checkpoint is valid and the covered prefix is what it says; the status counts the intact records behind it and names the first damaged position; each error says what is wrong and where |
| Checkpoints.PinsPrefix | crates/writ-receipts/src/ledger.rs:189-282 | a ledger a checkpoint covers starts with exactly the records it was built from, or `ChainCollision` is a collision |
| Checkpoints.SurvivesGrowth | crates/writ-receipts/src/ledger.rs:113-282 | whatever is appended, well formed or not, the checkpoint still covers its records, and is valid unless the session id is empty |
| Checkpoints.CountsAppended | crates/writ-receipts/src/ledger.rs:174-282 | behind an intact extension `appended_after` is its length |
| Checkpoints.ReportsDamage | crates/writ-receipts/src/ledger.rs:189-282 | damage behind the tip is reported at its first position and fails nothing |
| Proofs.Prove | crates/writ-receipts/src/proof.rs:43-90 | fails exactly when the checkpoint does not match the ledger, with that fault, or the call has no covered record; otherwise lists those records in ledger order, each with its audit path |
| Proofs.OfCallIsComplete | crates/writ-receipts/src/proof.rs:43-90 | no covered record of the call is missing |
| Proofs.OfCallInOrder | crates/writ-receipts/src/proof.rs:43-90 | they are covered and stand in strictly ascending order |
| Proofs.VerifyEntries | crates/writ-receipts/src/proof.rs:111-154 | accepts exactly non-empty proofs whose every entry is well formed, hashes right and leads to the root |
| Proofs.ProvedIsAccepted | crates/writ-receipts/src/proof.rs:43-154 | every proof `prove` returns is accepted |
| Proofs.AcceptedIsIncluded | crates/writ-receipts/src/proof.rs:111-154 | an entry accepted against the root of a ledger is the record at its leaf index, or `EntryCollision` is a collision |
| Proofs.AcceptedIsOfCall | crates/writ-receipts/src/proof.rs:111-154 | an accepted proof has entries, each a covered record of the call it names, or that entry gives a collision |
| Canonical.CanonicalInjective | crates/writ-receipts/src/receipt.rs:116-203 | two valid checkpoints with the same bytes are equal, scoped or not, for every session id |
| Canonical.CanonicalText | crates/writ-receipts/src/receipt.rs:179-203 | the ten lines of the text: which field stands where, under what name, the session id in hex |
| Policy.VerdictUnique | crates/writ-policy/src/engine.rs:45-52 | first match wins: what an engine must return is one verdict, so engines that meet it agree |
| Policy.VerdictSays | crates/writ-policy/src/engine.rs:45-145 | what such a verdict says: with no match the kind of the policy default under rule `default`; otherwise the kind of the first matching rule, its id, reason, line, timeout, irreversibility and patterns |
| Policy.ReadsItsMember | crates/writ-policy/src/engine.rs:182-204 | each field is the member of the call that bears its name and no other; an unknown field equals nothing |
| Policy.CompareSays | crates/writ-policy/src/engine.rs:162-180 | a comparison holds exactly when the field is present and its value is made as the operator says |
| Policy.EntryIs | crates/writ-policy/src/engine.rs:207-215 | a wildcard entry lets in its base and every subdomain in any ASCII case, a plain entry itself only |
| Policy.InSays | crates/writ-policy/src/engine.rs:162-180 | membership is being let in by some entry of the list |
| Policy.Evaluate | crates/writ-policy/src/engine.rs:45-52 | the native engine returns it |
| Cedar.Codegen.Expr | crates/writ-policy-cedar/src/codegen.rs:98-166 | the traversal that grows one regex slot table computes the generated condition |
| Cedar.Generate | crates/writ-policy-cedar/src/codegen.rs:69-95 | one permit per rule over a shared slot table |
| Cedar.ContextFor | crates/writ-policy-cedar/src/lib.rs:265-293 | never fails on a duplicate attribute; a field is there exactly when the call has it, its lowercase copy too, and every slot holds the regex verdict |
| Cedar.ExprYields | crates/writ-policy-cedar/src/codegen.rs:102-176 | a generated condition never errors and is true exactly when the rule's `when` is: guards, globs, wildcard lists and slots included |
| Cedar.GlobDotted | crates/writ-policy-cedar/src/codegen.rs:211-219 | the glob `*.suffix` matches exactly the strings that end in it |
| Cedar.RulesYield | crates/writ-policy-cedar/src/codegen.rs:69-176 | permit i is satisfied exactly when rule i matches |
| Cedar.PolicyIdRoundTrip | crates/writ-policy-cedar/src/codegen.rs:55-66 | the rule index is recovered from the policy id |
| Cedar.RuleIndexIff | crates/writ-policy-cedar/src/codegen.rs:60-66 | a policy id names a rule exactly when it is an `r` and digits |
| Cedar.AuthorizeMatches | crates/writ-policy-cedar/src/lib.rs:121-171 | the authorizer reports no error, only known policies, and the first match as its lowest |
| Cedar.LowestRule | crates/writ-policy-cedar/src/lib.rs:121-171 | the loop finds the lowest rule among the satisfied policies in whatever order they come, or an id that is no rule's |
| Cedar.Decide | crates/writ-policy-cedar/src/lib.rs:121-171 | picks the lowest satisfied permit; an evaluation error, an id that is no rule's or a decision that disagrees with the satisfied set is a fail-closed denial |
| Cedar.Evaluate | crates/writ-policy-cedar/src/lib.rs:304-312 | the Cedar engine returns the native verdict for every policy and every call |
| Rego.Codegen.CompileExpr | crates/writ-policy-rego/src/codegen.rs:96-139 | the traversal that pushes helper rules computes the generated bodies |
| Rego.GenerateModule | crates/writ-policy-rego/src/codegen.rs:32-84 | helpers are shared across all rules; a panic in one rule is a panic |
| Rego.PanicsIff | crates/writ-policy-rego/src/codegen.rs:168-201 | generation panics exactly on a membership test of an unknown field in a non-empty list |
| Rego.BrokenIff | crates/writ-policy-rego/src/codegen.rs:32-84 | a policy has no module exactly when one of its rules makes such a test |
| Rego.UnknownFieldPanics | crates/writ-policy-rego/src/codegen.rs:168-201 | an instance: a rule that tests membership of a field that does not exist |
| Rego.AsciiAgrees | crates/writ-policy-rego/src/codegen.rs:168-184 | a `lower` that is the ASCII one on ASCII text puts every call with ASCII values in the domain |
| Rego.MembershipIff | crates/writ-policy-rego/src/codegen.rs:168-184 | the matcher of a membership test evaluates to its rule's `when` exactly where the two lowercasings put the field's value in the same list |
| Rego.KelvinDiffers | crates/writ-policy-rego/src/codegen.rs:168-184 | a Unicode `lower` puts the Kelvin sign in `*.k`, the native engine does not |
| Rego.BodiesMean | crates/writ-policy-rego/src/codegen.rs:96-184 | the disjunction of the generated bodies, with undefined references failing and `not` through helpers, is the expression |
| Rego.ModuleIsStratified | crates/writ-policy-rego/src/codegen.rs:32-139 | helper names never clash across rules, and helpers depend on nothing |
| Rego.MatchersMean | crates/writ-policy-rego/src/codegen.rs:32-139 | every matcher evaluates, without error, to its rule's `when` |
| Rego.EngineAgrees | crates/writ-policy-rego/src/lib.rs:101-213 | on every policy in the domain the else chain gives the native verdict |
| Rego.DecisionSays | crates/writ-policy-rego/src/lib.rs:101-213 | whatever text the engine answers: the default, the verdict of the rule whose number it is, or a denial by `engine-rego-fail-closed` |
| Rego.UndecidedDenies | crates/writ-policy-rego/src/lib.rs:101-213 | an evaluation that fails denies |
| Rego.RecursiveIff | crates/writ-policy-rego/src/codegen.rs:113-121 | a helper of the module refers to itself exactly when some rule has a `not` inside a `not` |
| Rego.DoubleNegationIsWrong | crates/writ-policy-rego/src/codegen.rs:113-121 | for every `not`-free operand and every call, the matcher of its double negation is false where the operand is true and an error where it is false, so the engine gives the default or denies where the native verdict is the rule's or the default |
| Rego.DoubleNegationFailsOpen | crates/writ-policy-rego/src/codegen.rs:116-118 | a doubly negated rule that denies `bash` lets `bash` through under a default of allow |
| Parser.Lexer.Next | crates/writ-policy/src/parser.rs:50-89 | the lexer that advances in place reads the first token |
| Parser.Cursor.Disjunction | crates/writ-policy/src/parser.rs:185-193 | the descending parser that rebuilds its left operand computes the parse and leaves the tokens after it |
| Parser.Parse | crates/writ-policy/src/parser.rs:141-156 | `parse_when`: terminates, and succeeds only if every token was used |
| Grammar.LexReads | crates/writ-policy/src/parser.rs:44-138 | a text of words, operators, parentheses and literals, spaced in any way that keeps words apart, lexes to its tokens; each literal may spell a character itself or escaped, `\n`, `\t` and `\r` are those characters, and a backslash before any other stays with it |
| Grammar.LexWritten | crates/writ-policy/src/parser.rs:44-138 | only such texts lex |
| Grammar.DisjunctionParses | crates/writ-policy/src/parser.rs:185-282 | the written form of any syntax tree, parentheses where they are or are not needed, parses to what it means and leaves the rest |
| Grammar.DisjunctionWritten | crates/writ-policy/src/parser.rs:185-282 | whatever parses was so written |
| Grammar.FieldIs | crates/writ-policy/src/ast.rs:31-47 | which names a field goes by, the aliases `url.host` and `server.trust` included; every other name is the unknown field |
| Grammar.ParseIff | crates/writ-policy/src/parser.rs:44-282 | so `parse_when` accepts exactly the texts of the language, field aliases and every spelling included, and gives each the tree it means |
| Grammar.ComparisonSays | crates/writ-policy/src/parser.rs:44-282 | the text of one comparison, under any name of its field and any spelling of its literal, is that comparison |
| Grammar.AsciiWord | crates/writ-policy/src/parser.rs:122-138 | an ASCII word is a letter or underscore and then letters, digits, underscores, dots and hyphens |
| Printer.OrBack | crates/writ-policy/src/parser.rs:185-219 | parsing the printed tokens of any tree, with only the parentheses precedence and left association need, gives the tree and leaves the rest |
| Utf8.ReadIff | crates/writ-policy/src/parser.rs:33-37 | the bytes of a text, each read as a character, are the text exactly when it is ASCII |
| Utf8.BadLenIs | crates/writ-policy/src/parser.rs:122-138 | where an identifier's bytes decode to no character, one replacement stands for the longest run that begins some character, or for one byte |
| Printer.LexBack | crates/writ-policy/src/parser.rs:44-138 | lexing the UTF-8 bytes of printed tokens gives them back, escapes included, except that a string value is the characters read of it |
| Printer.PrintParse | crates/writ-policy/src/parser.rs:44-282 | printing a tree whose list references are names, then lexing and parsing, gives the tree with every string value as read |
| Printer.PrintParseIff | crates/writ-policy/src/parser.rs:44-282 | parsing undoes printing on a tree exactly when its string values are ASCII and its list references are names |
| Printer.UnwritableFails | crates/writ-policy/src/parser.rs:126-137 | a reference holding a replacement character, as identifiers of undecodable bytes do, stops the lexer when printed |
| Printer.AccentIsLost | crates/writ-policy/src/parser.rs:99-121 | an accented letter comes back as the two characters of its bytes |
| Printer.ParsePrint | crates/writ-policy/src/parser.rs:44-282 | every ASCII text that parses has a tree which printed parses to the same tree |
| Refs.RefRoundTrip | crates/writ-cli/src/hook.rs:1130-1177 | a ref parses back to itself for every u64 index, 64-hex hash and approver, except one with an empty id, which is refused |
| Refs.ParseRefIff | crates/writ-cli/src/hook.rs:1143-1177 | a text is a ref exactly when it is made of its parts: `w1`, a numeral below 2^64, 64 hex digits, and then nothing or an approver kind and a non-empty hex id |
| Gateway.LocateScan | crates/writ-cli/src/hook.rs:411-436 | the scan that updates `found` computes the last match |
| Gateway.LocateItems | crates/writ-cli/src/hook.rs:411-436 | the same over a store's stream, which the first unreadable record ends |
| Gateway.LocateFinds | crates/writ-cli/src/hook.rs:411-436 | in any intact ledger without an Execution before its Decision, what is found is a matching Decision, marked executed exactly when some Execution links it |
| Gateway.LocateLast | crates/writ-cli/src/hook.rs:411-436 | by session and call, nothing is found exactly when there is no such Decision, and otherwise the last one |
| Gateway.LocateRefIff | crates/writ-cli/src/hook.rs:438-449 | a ref finds a record exactly when the one at its index is a Decision with its hash |
| Gateway.RefResolves | crates/writ-cli/src/hook.rs:438-449 | in every later ledger a ref resolves to the same Decision, executed exactly when some Execution links it |
| Gateway.HandleKeeps | crates/writ-cli/src/hook.rs:380-1036 | each request adds exactly its own record or none, field by field (a status from `exit` if given, else 0 for `ok` and 1 for not), and keeps: every Execution a gateway wrote links to an earlier non-Deny Decision of the same call, session, rule and input, with an approver exactly for unanswered asks, and no Execution before it, whoever's, names that Decision |
| Gateway.ServeKeeps | crates/writ-cli/src/hook.rs:380-1036 | so over every history of requests of any gateways and appends of other programs, from any ledger in order; new Decisions are one per decide and those of the others |
| Gateway.ServeAlone | crates/writ-cli/src/hook.rs:380-1036 | from the point on where only gateways append, every Execution links back and no other in the whole ledger names its Decision |
| Gateway.PostKeeps | crates/writ-cli/src/hook.rs:929-1036 | the same for completions correlated by session and tool use |
| Gateway.DecideAnswers | crates/writ-cli/src/hook.rs:557-650 | a decide always answers with the ref of the Decision it just recorded; it dispatches exactly when the engine allows or redacts, or asks under `--ask ui` with a console approver, whom the ref carries in exactly that case |
| Gateway.DispatchIsCompletable | crates/writ-cli/src/hook.rs:557-741 | an answer with `dispatch: true` hands out the ref of an open Decision that may be completed with the approver in it |
| Gateway.ResolveIff | crates/writ-cli/src/hook.rs:652-741 | in any later ledger resolving a handed-out ref dispatches exactly when approved, outside `--ask ui`, for an ask nobody answered, not executed and not timed out; the answer is about that Decision and credits the approver named; refusals are told apart; it never writes |
| Gateway.ResolveRefuses | crates/writ-cli/src/hook.rs:652-741 | every other ref is refused: what is no ref, what names no Decision, and what carries an approver already |
| Gateway.CompleteIff | crates/writ-cli/src/hook.rs:743-812 | a complete is recorded exactly when its ref names a Decision not yet executed that may run with the approver in it and an outcome is reported; the refusals are told apart |
| Gateway.PostIff | crates/writ-cli/src/hook.rs:929-1036 | a tool's end is recorded exactly when the last Decision of its session and id let it run and was not executed, linked to it and credited to the console or the prompt exactly for an ask |
| Gateway.PostNeedsDecision | crates/writ-cli/src/hook.rs:929-1036 | without such a Decision nothing is recorded |
| Gateway.DispatchThenComplete | crates/writ-cli/src/hook.rs:743-812 | in any later ledger completing with that ref is recorded once, with exactly that approver, and refused afterwards |
| Gateway.LateCompletion | crates/writ-cli/src/hook.rs:776-804 | if gateways or other programs append between check and write, the audit survives exactly when none of them completed the same Decision |
| Gateway.Session.Append | crates/writ-core/src/ledger.rs:115-121 | the store contract: accepted exactly when the record links; a hash-correct record is refused only by a race |
| Gateway.Session.RetryAppend | crates/writ-ledger/src/file_store.rs:444-470 | stops at the first quiet attempt or after 64 lost races; one own record on success, none on failure, whatever rivals appended |
| Gateway.Session.DecideCall | crates/writ-cli/src/hook.rs:380-409 | a decide under contention is the one-step decide on the ledger its append found |
| Gateway.Session.CompleteCall | crates/writ-cli/src/hook.rs:743-812 | the imperative completion is the state machine's |
| FileGateway.RunOrdered | crates/writ-ledger/src/file_store.rs:198-358 | in every state of every run of the file store the ledger is in order, if no Execution is appended below what it names |
| FileGateway.RefResolvesInRun | crates/writ-cli/src/hook.rs:438-449 | a ref to a Decision committed in one state of a run resolves to it in every later state, whatever writers append, crash or repair in between |
| FileGateway.FileSession.Write | crates/writ-core/src/ledger.rs:135-151 | the record built on the tip a handle finds is appended to the file's records and nothing else |
| FileGateway.FileSession.Find | crates/writ-cli/src/hook.rs:411-436 | reading the file finds what the scan of its records finds |
| FileGateway.FileSession.Decide | crates/writ-cli/src/hook.rs:380-409 | a decide over a handle is the state machine's on the file's records |
| FileGateway.FileSession.Complete | crates/writ-cli/src/hook.rs:743-812 | so is a complete |
| Civil.CivilIsDate | crates/writ-core/src/time.rs:51-62 | every integer day number is a Gregorian date, and the inverse gives the number back |
| Civil.DaysIsCivil | crates/writ-core/src/time.rs:86-108 | every Gregorian date is the date of its day number |
| Civil.NextDay | crates/writ-core/src/time.rs:51-62 | the next day number is the next calendar date |
| Civil.RenderParse | crates/writ-core/src/time.rs:33-108 | parsing a rendered timestamp gives it back floored to the second, exactly when its year fits four columns |
| Civil.RenderStable | crates/writ-core/src/time.rs:33-108 | a decoded timestamp renders as it was written |
| Civil.RehashesSame | crates/writ-core/src/ledger.rs:83-104 | so a record the writer stamped, decoded and rendered again, re-hashes the same |
| Civil.RehashIff | crates/writ-core/src/ledger.rs:83-104 | whoever wrote it, a record that decodes comes back as it was exactly when its timestamp is canonical; otherwise its hash changes, or the two hash inputs collide |
| Civil.DateIsKept | crates/writ-core/src/time.rs:97-104 | year, month and day go through a day number and back exactly when the calendar has them |
| Civil.CanonicalIff | crates/writ-core/src/time.rs:33-108 | a text is accepted and rendered back unchanged exactly when its punctuation, digits, calendar date, hour, minute and second are in order |
| Civil.ParseIff | crates/writ-core/src/time.rs:86-108 | exactly which texts are accepted (punctuation, signed columns and ranges) and the instant of each, counted on from the first of its month |
| Civil.DateIsLost | crates/writ-core/src/time.rs:86-108 | 31 February 2023 is accepted at any time of day, as 3 March at that time |
| Civil.SixtyIsNext | crates/writ-core/src/time.rs:86-108 | second 60 is accepted wherever second 0 is, as the minute after |
| Civil.SignIsLost | crates/writ-core/src/time.rs:91-96 | hour `+1`, minute `-1` is accepted, as 00:59 |
| Civil.WideIsRefused | crates/writ-core/src/time.rs:86-91 | a text with a character of more than one byte, wherever it stands, is refused |
| Civil.ColonsAreUnread | crates/writ-core/src/time.rs:86-108 | which ASCII characters stand at positions 13 and 16 makes no difference |
| Client.StepKeeps | adapters/typescript/src/client.ts:195-366 | every event keeps: settled then queued requests are exactly the sent ones in order, a request is resolved only by a response of version 1 with its own id and no error, no process means an empty queue, no respawn means one process; settlements are never revised |
| Client.RunKeeps | adapters/typescript/src/client.ts:195-366 | so does every run of requests, chunks, timeouts, crashes and closes |
| Client.SettledOnce | adapters/typescript/src/client.ts:317-366 | each request is settled at most once, first in first out, and unsettled means in the queue |
| Client.ResponseSettles | adapters/typescript/src/client.ts:317-345 | a line that answers the oldest request settles exactly that one, resolved with the line when it carries no error and rejected with its code otherwise; the process stays |
| Client.OtherLineDrops | adapters/typescript/src/client.ts:317-345 | every other line with text in it drops the process and rejects all in flight; a blank one does nothing |
| Client.PartialWaits | adapters/typescript/src/client.ts:302-315 | text without a newline waits in the buffer unless its bytes are over the limit |
| Client.EventSays | adapters/typescript/src/client.ts:195-366 | what a request, a dying process, a timer and a close do to the queue, the process and what is settled |
| Client.ChunkingIsInvisible | adapters/typescript/src/client.ts:302-315 | any chunking that cuts no partial line over the limit ends in the same state as one chunk |
| Client.OverlongPoisons | adapters/typescript/src/client.ts:312-314 | a partial line over the limit always drops the process and fails the queue |
| Client.Transport.FailPending | adapters/typescript/src/client.ts:359-366 | rejects every pending request, oldest first |
| Client.Transport.Line | adapters/typescript/src/client.ts:317-345 | the handler of a response line computes the transition |
| Client.Transport.Receive | adapters/typescript/src/client.ts:302-315 | the buffer loop computes the transition |
| Client.Transport.Call | adapters/typescript/src/client.ts:221-246 | a request is refused exactly when it gets no id, always on a closed client, with the error that says why |
| Client.Transport.OnEvent | adapters/typescript/src/client.ts:195-366 | the object's handlers are the steps of the machine |
| RowCursor.Cursor.FillPage | crates/writ-ledger/src/sqlite.rs:451-480 | the loop over a page computes the refill |
| RowCursor.Cursor.NextItem | crates/writ-ledger/src/sqlite.rs:486-491 | one call of the iterator |
| RowCursor.RowSays | crates/writ-ledger/src/sqlite.rs:309-324 | a row yields the record its text parses to, if that bears the row's key, and otherwise an error |
| RowCursor.SelectOrdered | crates/writ-ledger/src/sqlite.rs:454-456 | what the plain scan lists is in strictly ascending key order, so each row once |
| RowCursor.SelectMisses | crates/writ-ledger/src/sqlite.rs:454-456 | and it misses no row whose key qualifies |
| RowCursor.SelectAfter | crates/writ-ledger/src/sqlite.rs:451-460 | querying from just past the m-th row gives the rows after it |
| RowCursor.PageIsNext | crates/writ-ledger/src/sqlite.rs:451-480 | a page is the next stretch of the plain scan; it is short, or ends at the greatest key, only at the end |
| RowCursor.YieldsPrefix | crates/writ-ledger/src/sqlite.rs:434-492 | with appends between any two calls, for every page size of at least 1, the yield is a prefix of the final table |
| RowCursor.YieldsAll | crates/writ-ledger/src/sqlite.rs:434-492 | on a table at rest the first k calls yield its first k rows with a non-negative key, in ascending order, and later calls nothing |
| RowCursor.FailureEnds | crates/writ-ledger/src/sqlite.rs:462-491 | a failed query adds one error to what was yielded and ends the scan, whatever the database does later |

## Left out

- SHA-256, Ed25519ph, ECDSA, base64, PEM and serde_json internals are parameters or absent; signing adds only calls around the canonical bytes.
- Rekor submission, key files, ACLs, Postgres, SQL triggers and the SQLite `append` and `rescan`: foreign systems, or the checks of `Gateway.Session.Append` again.
- `regex` is an uninterpreted predicate shared by all engines; Rego's `lower` is an uninterpreted function.
- Cedar and Rego concrete text, escaping and comments: the targets are expression datatypes with evaluators; a Rego rule that depends on itself evaluates to an error.
- YAML loading, list resolution, durations, packs, fixtures, `reload`.
- File steps take effect whole or byte by byte in order; lock timeouts (an append that does nothing), fsync, power loss and reads interleaved with a truncation are not modelled.
- Integers are unbounded except where a width decides something: the u64 of a ref, the i32 of an exit status, the i64 key of a row.
- Gateway output bodies, masking, telemetry spans, lazily opened stores and engines, the Claude Code `PreToolUse` answer and the other hook formats; `resolve` takes the milliseconds elapsed as an input.
- Gateway.LateCompletion: at-most-once across processes is a condition on what they append, because the check and the append are separate steps.
- The receipts crate's own JSONL reader, which repeats `record_iter` with other error texts.
- Client.Transport.OnEvent: JSON serialization failures, `setRef`, stderr collection and the two-second kill timer of `close` are not modelled.
- Rego.EngineAgrees: a nested `not` is outside its domain; there the self-reference is proved for every policy and the verdict for a single doubly negated rule, because what a Rego engine does with a recursive rule is not decided by this repository.
- `writ run`, sandboxes, agent profiles, the web console, OTel, the MCP proxy, reports.
