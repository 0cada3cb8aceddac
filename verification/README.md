# Rellaf, modelled and proved in Dafny

This project models the parts of rellaf whose correctness is not visible from reading one function,
and proves what they promise. It is organised as the library is:

* **SQL templates.** `#{field}` and `#[list]` templates are taken apart by a character machine
  (`SqlPattern.dfy`), placeholders are resolved by dotted paths through reflected models
  (`Models.dfy`, `AccessPath.dfy`), values are escaped under GBK or UTF8 with read and write cursors
  over a buffer (`Charset.dfy`, `EscapeSpec.dfy`, `EscapeLoop.dfy`), and `SqlBuilder.dfy` puts the
  statement together. `EscapeText.dfy` says in numbers what is escaped, and `Placeholders.dfy` which
  argument and which value a placeholder stands for, by direct descent in the model. Against these stands an independent reader of SQL text, written from section
  9.1.1 (string literals) and section 9.2 (identifiers) of the MySQL 5.7 Reference Manual
  (`MysqlLexer.dfy`), and an independent definition of a character, for UTF8 the encoding of section 3
  of RFC 3629 cut to three bytes and with surrogates, as the code has it. `EscapeMeaning.dfy`,
  `SqlTokens.dfy` and `StatementMeaning.dfy` connect the two sides.
* **URL routing.** The two path automata (`UrlPattern.dfy`) refine one definition by splitting
  (`Splitting.dfy`). The route trie is a class over heap nodes (`UrlTrie.dfy`) that refines a table of
  route shapes; what the greedy lookup returns, and when it misses a route, is proved about that
  table (`Routes.dfy`), as is when it binds what the matcher binds (`RouteNames.dfy`); `Routing.dfy` puts a
  run of registrations and a lookup together.
* **Queue and hand-off.** The doubly linked list (`LinkList.dfy`), the blocking queue (`BlockingQueue.dfy`)
  and the latch (`Latch.dfy`) are classes changed in place. Every section of the queue that holds the
  mutex is one step of a system of threads that park on condition variables, wake spuriously and time
  out (`QueueRuns.dfy`), and so for the latch (`LatchRuns.dfy`). On top of the queue `HandOff.dfy` models
  callers of `execute` and the worker loop: contexts in the frames of callers, the result pointer, the
  latch. `HandOffProgress.dfy` shows that no call is lost.
* **Models on the heap.** Lists own their items and copy what is put into them (`ModelNodes.dfy`);
  encoding to JSON and decoding in place work on the same nodes (`JsonNodes.dfy`), against functions
  on the model tree as a value (`JsonModels.dfy`), which `JsonMeaning.dfy` describes type by type and
  place by place.

Code that changes things step by step is a method or a class here, proved equal to a function; the
laws are lemmas about the functions. Modules are named in the first line of each file;
`Bytes.dfy`, `Options.dfy`, `PatternErrors.dfy` and `Decimal.dfy` hold shared vocabulary.

Where the code and its comments disagree, the model follows the code. The comment above `escape_field`
says escaping is right only between single quotes; the code also escapes double quotes, and
`EscapeMeaning.RoundTrip` holds for both. The comment above `escape_quotes_for_mysql` describes
backslash escaping; the code doubles the quote. Doubling itself makes no character, as a note in the code
says, but under GBK the closing backtick can: `EscapeMeaning.IdentifierRoundTrip` says exactly when.

## Model

| member | source | states |
|---|---|---|
| Charset.IsMbCharExact | include/mysql_escape.h:32-112 | the byte classifiers find a multi-byte character of length k exactly when the first k bytes are one: in GBK a byte 0x81-0xFE and a byte 0x40-0x7E or 0x80-0xFE, in UTF8 the encoding of a code point up to 0xFFFF |
| Charset.LeadByte | src/mysql_escape.cpp:266-322 | when a string starts with a multi-byte character, the length guessed from its first byte alone is the real one, and a byte that looks like a head is never ASCII |
| Charset.LeadExact | include/mysql_escape.h:91-112 | the length guessed from one byte is above 1 exactly when characters of that length begin with the byte |
| EscapeSpec.StopsAtEnd | src/mysql_escape.cpp:108-186 | the cursor reaches the end of the text exactly when the whole escaped text fits the room |
| EscapeSpec.StopsFurthest | src/mysql_escape.cpp:108-186 | where the escaper stops is the longest part made of whole characters whose escaped form fits |
| EscapeText.EscapeFirst | src/mysql_escape.cpp:115-182 | escaping copies the character that stands first, or writes the one byte that starts none with its backslash form, in numbers: NUL, newline, return, 0x1A, both quotes, backslash and every byte with which characters begin, and no other |
| EscapeText.CharactersStay | src/mysql_escape.cpp:118-128 | a text made of whole characters and harmless ASCII is escaped to itself by both escapers |
| EscapeText.GbkPairStays | src/mysql_escape.cpp:118-128 | every GBK pair is copied whatever follows, also one that ends in a backslash or a backtick |
| EscapeLoop.EscapeStringForMysql | src/mysql_escape.cpp:108-186 | the two-cursor loop leaves in the buffer the escaped whole-character part that fits, with its terminator and every later byte as before; it returns the length of the escaped text, or -1 exactly when a length was given and the text is not shorter |
| EscapeLoop.EscapeQuotesForMysql | src/mysql_escape.cpp:211-252 | the same for identifiers, whose quote is doubled |
| EscapeLoop.EscapeFieldQuote | src/mysql_escape.cpp:78-83 | a backtick chooses doubling, any other quote backslashes; the buffer then holds the whole escaped text as a C string |
| EscapeText.FieldQuoteMeaning | src/mysql_escape.cpp:78-83 | for each of the three quotes, the text in the buffer reads back between two of them, except a name under GBK that ends in a byte with which a character could begin |
| EscapeLoop.NoLengthNoOverflow | src/mysql_escape.cpp:112-185 | with length 0 the buffer holds the whole escaped text, nothing cut off |
| EscapeSpec.EscapeLength | src/mysql_escape.cpp:108-186 | the escaped text is longer than the text by the number of bytes that are escaped |
| EscapeLoop.FitsExact | src/mysql_escape.cpp:85-106 | a text fits the wrapper's buffer exactly when its escaped text is shorter than 1024 bytes, or, for a text of more than 768, than one and a half times the text |
| EscapeLoop.AlwaysFits | src/mysql_escape.cpp:85-106 | every text of n bytes fits the wrapper's buffer if and only if n is at most 511 |
| EscapeLoop.EscapeField | src/mysql_escape.cpp:85-106 | when the escaped text fits, copying it out of the buffer as a C string loses nothing |
| EscapeMeaning.NoZeroByte | src/mysql_escape.cpp:141-182 | escaped text holds no zero byte, whatever the input |
| EscapeMeaning.RoundTrip | src/mysql_escape.cpp:108-186 | for every byte string, both character sets and both string quotes, a charset-aware reader stops at the quote put behind the escaped text and recovers the string, with stray lead bytes and GBK tails that are backslashes |
| EscapeMeaning.EscapeInjective | src/mysql_escape.cpp:108-186 | no two values have the same escaped form |
| EscapeMeaning.IdentifierRoundTrip | src/mysql_escape.cpp:211-252 | a quoted identifier reads back if and only if it does not end in a stray GBK lead byte that would take the closing backtick as its tail |
| EscapeMeaning.StrayLeadIdentifier | src/mysql_escape.cpp:230-241 | the one-byte identifier 0x81 under GBK is such a case, and not under UTF8 |
| SqlPattern.Explode | src/var_pattern.cpp:59-164 | the loop accepts exactly the templates, and then the pieces are in normal form and print to the pattern |
| SqlPattern.ExplodedSound | src/var_pattern.cpp:59-164 | printing the pieces of an accepted pattern gives the pattern back |
| SqlPattern.ExplodePrint | src/var_pattern.cpp:59-164 | taking apart the print of a normal list of pieces gives the list back, with no error |
| SqlPattern.PrintInjective | src/var_pattern.cpp:59-164 | two normal lists with one print are equal, so a template can be read in one way only |
| SqlPattern.AcceptsTemplates | src/var_pattern.cpp:59-164 | an ASCII pattern is accepted if and only if it is text, `#{name}` and `#[name]` in any order |
| SqlPattern.StepBlames | src/var_pattern.cpp:70-137 | after a prefix that can still become a template, a character is rejected with an error exactly when that error describes it |
| SqlPattern.RejectionExplained | src/var_pattern.cpp:59-164 | a rejected pattern reports the error of its first prefix that no template continues, or of the unfinished end, and the pieces are exactly those finished before it |
| Decimal.StrtoulOfNat | src/sql_builder.cpp:125-126 | a decimal number below 2 to the 64 followed by any non-digit text is read as that number |
| Decimal.OfNatExact | include/model.h:394-441 | a number is printed as the one numeral in base 10 without leading zeros that stands for it |
| Decimal.StrtoulExact | src/sql_builder.cpp:125-126 | spaces, a sign, digits and any rest: the number, cut off at the largest of 64 bits, counted down from 2 to the 64 after a minus sign |
| Models.TextExact | include/model.h:371-466 | the text of every value by its type: a minus sign exactly for negative numbers, 1 and 0 for bools, the byte or the string itself |
| Splitting.SectionsExact | include/str.hpp:64-78 | a list is the split of a text if and only if it consists of non-empty delimiter-free pieces that, with some delimiters between and around them, spell the text |
| Splitting.SectionsOfSpread | include/str.hpp:64-78 | however many delimiters stand between the pieces, splitting gives the pieces back |
| Splitting.Split | include/str.hpp:64-78 | the loop over `find` appends exactly the split |
| AccessPath.PathSectionsSplit | src/sql_builder.cpp:34-55 | for text without a zero byte, `split_section` is `split` on dots |
| AccessPath.PathSectionsZero | src/sql_builder.cpp:34-55 | the first zero byte hides the dots behind it and stays with the piece it stands in |
| AccessPath.SplitSection | src/sql_builder.cpp:34-55 | the loop over `strchr`, with its restart from a C string and its last piece cut from the whole string, also where the text holds zero bytes |
| AccessPath.GetPlainVal | src/sql_builder.cpp:84-137 | the loop reaches what the traversal defines: the value, or none |
| AccessPath.PlainValExact | src/sql_builder.cpp:84-137 | the walk finds a value exactly when direct descent along some of the first sections ends at it (plain members before lists before objects, the i-th item of a list), and follows a null pointer exactly when descent meets one |
| AccessPath.AccessRoundTrip | src/sql_builder.cpp:34-137 | printing a path of names and `<i>` indices with any dots, splitting it and walking it reaches the value of direct descent |
| AccessPath.CollectTexts | src/sql_builder.cpp:177-185 | the loop over a list collects the texts of its plain items |
| AccessPath.GetListVal | src/sql_builder.cpp:139-190 | the loop reaches what the traversal for lists defines |
| AccessPath.ListValExact | src/sql_builder.cpp:139-190 | from an object the walk yields the list that descent by all names reaches, from a list the one that descent by all indices reaches, and otherwise none, or undefined behaviour where descent gets nowhere |
| AccessPath.PlainTextsOf | src/sql_builder.cpp:177-185 | at every place of a list, an item adds its text if it is plain, and nothing if it is not |
| AccessPath.PlainTextsExact | src/sql_builder.cpp:177-185 | a list of plain items gives the text of every item, in order |
| AccessPath.PlainTextsDefined | src/sql_builder.cpp:177-185 | a list yields texts exactly when no item is a null pointer |
| AccessPath.ListAccessRoundTrip | src/sql_builder.cpp:34-190 | a printed path of field names reaches the list of direct descent |
| SqlBuilder.CollectModels | include/sql_builder.h:76-91 | the loop over the arguments builds the table of models by tag |
| SqlBuilder.CollectExact | include/sql_builder.h:76-91 | a tag is in the table exactly when an argument has it, and stands for the first that does |
| Placeholders.SourceExact | include/sql_builder.h:112-134 | a path starts in the only argument, or after its first section in the first of several arguments with that tag; it starts nowhere exactly when it is empty or no argument has the tag |
| Placeholders.LookupExact | include/sql_builder.h:112-150 | a placeholder finds a value or a list exactly when direct descent from that start reaches it |
| Placeholders.TaggedReads | include/sql_builder.h:124-150 | with several arguments, `#{tag.path}` is the value that descent along the path reaches in the first argument with the tag |
| Placeholders.OnlyReads | include/sql_builder.h:124-150 | with one argument, `#{path}` is the value that descent along the whole path reaches in it, whatever its tag |
| Placeholders.RefusedExact | include/sql_builder.h:112-150 | a placeholder is refused exactly when its path starts nowhere or descent reaches no value and no list; nothing is written for it |
| Placeholders.RefusedFirst | include/sql_builder.h:105-161 | a statement is refused exactly at its first refused placeholder, with the text of the pieces before it |
| Placeholders.UndefinedExact | include/sql_builder.h:136-161 | the cases without a defined result: a null pointer on the way, a quoted value too long for the buffer, a list path that leaves the tree, an empty list that begins the statement |
| SqlBuilder.SqlBuilder.Register | include/sql_builder.h:60-74 | a template is registered exactly when it is one; the first registration of a method stays |
| SqlBuilder.SqlBuilder.AppendSql | src/sql_builder.cpp:192-211 | appends the value, escaped and quoted as asked |
| SqlBuilder.SqlBuilder.AppendList | include/sql_builder.h:151-159 | appends the quoted values with commas and drops the last comma |
| SqlBuilder.SqlBuilder.PrepareStatement | include/sql_builder.h:84-164 | the loop over the pieces ends as the piece-by-piece definition does: with the statement, or refused with the text so far |
| SqlTokens.MergeExact | include/sql_builder.h:105-161 | joining quoted tokens that touch changes nothing exactly when none touch |
| SqlTokens.ValueSpells | src/sql_builder.cpp:192-211 | a value between quotes, escaped, is read as one constant with that value, whatever follows |
| SqlTokens.TokensOfLexemes | src/sql_builder.cpp:192-211 | texts put side by side that each read as a token read as those tokens, with touching quotes of one kind joined |
| SqlTokens.LiteralLexemes | include/sql_builder.h:107-110 | ASCII text that leaves no quote open, with string constants and backticked identifiers of its own, is such texts side by side, none touching |
| StatementMeaning.StatementTokens | include/sql_builder.h:105-161 | for every template whose literals leave no quote open, and all arguments, the reader finds the tokens of the literals in order and one constant for every quoted value, joined where they touch |
| StatementMeaning.StatementMeaning | include/sql_builder.h:105-161 | the statement reads as its template, each placeholder as exactly the value that direct descent in its argument reaches, if and only if no empty list stands behind a comma and, empty lists left out, no piece closes with the quote that the next one opens with |
| StatementMeaning.EatenComma | include/sql_builder.h:151-159 | the template `1,#[i]` with an empty list loses the comma of its literal |
| StatementMeaning.PrepareMeaning | include/sql_builder.h:60-164 | what a builder returns for a registered method reads as the pattern registered for it, under that same condition, every placeholder being the value that direct descent in its argument reaches |
| StatementMeaning.DoneFindsAll | include/sql_builder.h:105-161 | a finished statement has found a value for every placeholder |
| StatementMeaning.TouchingPlaceholders | src/sql_builder.cpp:192-211 | two touching quoted values x and y read as the one constant x'y |
| UrlPattern.PatternAccepted | src/var_pattern.cpp:166-304 | a pattern is accepted if and only if every section is free of braces or a braced name, the latter not in a first section without a slash; the result holds the positions of the variables |
| UrlPattern.PatternNames | src/var_pattern.cpp:235-265 | the name held for a position is what stands between the braces of its section |
| UrlPattern.PatternRejected | src/var_pattern.cpp:166-304 | a pattern is rejected with an error if and only if that error describes the text of its first section that is not accepted |
| UrlPattern.ExplodePathVars | src/var_pattern.cpp:166-304 | the five-state automaton, with its moves that do not advance, terminates with the result and the error of the definition by sections |
| UrlPattern.FetchedExact | src/var_pattern.cpp:306-362 | a name is bound exactly when it stands at a position of the path, and to the first such section |
| UrlPattern.FetchPathVars | src/var_pattern.cpp:306-362 | the automaton that reads a path binds what the definition by sections binds |
| UrlPattern.UrlRoundTrip | src/var_pattern.cpp:166-362 | filling the variables of an accepted pattern, position by position, with slash-free values and any extra slashes, and matching, binds every name to the value at its first position; all values come back if and only if equal names carry equal values |
| UrlPattern.AssignmentRoundTrip | src/var_pattern.cpp:166-362 | an assignment of values to the names of an accepted pattern comes back, repeated names or not |
| Routes.LookupExact | src/var_pattern.cpp:429-452 | the lookup returns a route if and only if the route is registered, matches, and takes a variable only where no registered route has the literal |
| Routes.LookupLeast | src/var_pattern.cpp:429-452 | the route returned is the least of all matching ones, a literal before a variable at the first difference |
| Routes.LookupFails | src/var_pattern.cpp:429-452 | when some registered route matches, the lookup fails exactly when a registered literal leads it away from every match |
| Routes.MisledExample | src/var_pattern.cpp:423-428 | after registering the two patterns of the comment, a path that one of them matches is not found |
| Routes.HopExact | src/var_pattern.cpp:398-414 | a section is a variable exactly when it is `{name}`, the name possibly empty, and otherwise the literal it is |
| Routes.NameOrigin | src/var_pattern.cpp:399-401 | every variable name in the trie comes from a registered pattern |
| Routes.TableNames | src/var_pattern.cpp:398-404 | when patterns share names, every position has the name each pattern gives it |
| Routes.FirstNames | src/var_pattern.cpp:398-404 | a position keeps the name of the first pattern with a variable there |
| Routes.NewestWins | src/var_pattern.cpp:416-419 | of the routes of one shape the last registered gives the name |
| Routes.TrieAgreesWithMatcher | src/var_pattern.cpp:166-452 | for accepted patterns that share names, a successful lookup binds exactly what matching the path against the selected pattern binds |
| RouteNames.AgreementExact | src/var_pattern.cpp:166-452 | for an accepted pattern, the trie binds what the matcher binds on every path that arrives at it if and only if every name has the same first position in the pattern and along it in the trie |
| RouteNames.TrieBindsExact | src/var_pattern.cpp:429-452 | along any registered pattern a lookup binds a name exactly when a braced position has it in the trie, to the section at the first such position |
| RouteNames.DifferentNames | src/var_pattern.cpp:399-401 | two patterns that name one position differently, and a path that gets the name of the other |
| UrlTrie.UrlTrie.constructor | src/var_pattern.h:109-129 | a new trie is a valid tree with an empty table |
| UrlTrie.UrlTrie.Put | src/var_pattern.cpp:393-421 | on a valid tree of nodes, only the name at the shape of the path changes, the first variable name at a position stays, the nodes stay a tree and no node is shared; the result says whether the path has sections |
| UrlTrie.UrlTrie.FetchVars | src/var_pattern.cpp:429-452 | the walk over the nodes is the lookup in the table: result, name and bindings, also the bindings left by a failed walk |
| Routing.Fill | src/var_pattern.cpp:393-421 | a trie filled by one `put` after the other holds the table of all of them |
| Routing.Route | src/var_pattern.cpp:393-452 | after any puts a lookup returns the newest pattern of the one shape that matches and takes a variable only where no pattern has the literal, and nothing when there is no such shape |
| LinkLists.LinkList.AddNode | src/mysql/flist.hpp:104-122 | links a node behind the last in both directions, unless the list is full |
| LinkLists.LinkList.AddTail | src/mysql/flist.hpp:77-102 | the same with a new node for a value |
| LinkLists.LinkList.PopHead | src/mysql/flist.hpp:124-142 | takes out the first node and keeps the rest linked both ways |
| LinkLists.LinkList.Detach | src/mysql/flist.hpp:144-161 | takes out a node at any position and keeps the rest linked both ways, in order |
| LinkLists.LinkList.Clear | src/mysql/flist.hpp:54-63 | releases every node once, reads none after its release, and may leave head and tail stale |
| BlockingQueues.BlockingQueue.constructor | src/mysql/fqueue.hpp:35-43 | an empty queue with both signals down; size 0 means the largest size |
| BlockingQueues.BlockingQueue.AddEnter | src/mysql/fqueue.hpp:63-90 | `add_block` up to its wait or its return is the step of the thread system |
| BlockingQueues.BlockingQueue.AddResume | src/mysql/fqueue.hpp:68-90 | the same after the wait has returned, where only the flag is looked at |
| BlockingQueues.BlockingQueue.AddExpire | src/mysql/fqueue.hpp:75-79 | a timeout puts the signal of the adders down |
| BlockingQueues.BlockingQueue.PopEnter | src/mysql/fqueue.hpp:113-142 | `pop_block` up to its wait or its return, with the node it hands over |
| BlockingQueues.BlockingQueue.PopResume | src/mysql/fqueue.hpp:117-142 | the same after the wait has returned |
| BlockingQueues.BlockingQueue.PopExpire | src/mysql/fqueue.hpp:124-129 | a timeout puts the signal of the poppers down and gives no node |
| BlockingQueues.BlockingQueue.Clear | src/mysql/fqueue.hpp:157-169 | both signals up, the queue empty, every node released once |
| QueueRuns.RunIsSafe | src/mysql/fqueue.hpp:63-169 | what every step of every thread keeps: a full queue has no signal for adders, and a signal for poppers on an empty queue is paid for by a `clear` |
| QueueRuns.EveryRun | src/mysql/fqueue.hpp:63-169 | over all interleavings with timeouts and spurious wake-ups: no add returns -1, pops of a null node are at most the calls of `clear`, the size is kept, and values added are the values removed in order followed by the contents |
| QueueRuns.NullPopsTight | src/mysql/fqueue.hpp:133-169 | the bound is reached: for every k a run with k calls of `clear` and k pops of a null node |
| QueueRuns.ClearReleases | src/mysql/fqueue.hpp:117-169 | after any run that ends in a `clear`: if consumers wait one is awake, an only consumer in any case, and the one that resumes next returns with a null node |
| QueueRuns.ClearMakesRoom | src/mysql/fqueue.hpp:68-169 | after such a run an only waiting producer is awake, and the one that resumes next adds its value |
| QueueRuns.AddAfterRun | src/mysql/fqueue.hpp:63-90 | after any run `add_block` parks exactly when the queue holds as many values as its size, and else adds behind them and raises the signal of the poppers only |
| QueueRuns.PopAfterRun | src/mysql/fqueue.hpp:113-142 | after any run `pop_block` takes the first value if there is one and raises the signal of the adders only; of an empty queue it returns null when the signal is up and parks when it is not |
| QueueRuns.OneConsumer | src/mysql/fqueue.hpp:82-139 | with at most one consumer thread, none waits beside an item without the signal |
| QueueRuns.OneProducer | src/mysql/fqueue.hpp:63-137 | with at most one producer thread, none waits beside a free place without the signal |
| QueueRuns.NeverBothAsleep | src/mysql/fqueue.hpp:63-139 | with one of each, the two are never both asleep |
| QueueRuns.ConsumersExact | src/mysql/fqueue.hpp:113-142 | no run strands a consumer if and only if there is at most one |
| QueueRuns.ProducersExact | src/mysql/fqueue.hpp:63-90 | no run strands a producer if and only if there is at most one |
| QueueRuns.TwoConsumers | src/mysql/fqueue.hpp:113-142 | a run in which two consumers are woken for one item, one times out, and the other goes back to sleep beside the item |
| QueueRuns.TwoProducers | src/mysql/fqueue.hpp:63-90 | for every size, a run in which of two woken producers one times out and the other goes back to sleep beside a free place |
| Latches.Latch.Decrement | src/mysql/flatch.hpp:59 | the atomic decrement wraps around and tells whether the counter is now 0 |
| LatchRuns.LatchLaw | src/mysql/flatch.hpp:30-65 | for any initial count n and any interleaving with fewer than 2 to the 32 decrements: the signal is up only after n of them, exactly one thread gets to 0 and only then, it has released or is about to, and a wait returns only with the signal up |
| LatchRuns.RunIsLawful | src/mysql/flatch.hpp:30-65 | the invariant behind it, with the value of the counter, which every step keeps |
| LatchRuns.WaitersExact | src/mysql/flatch.hpp:32-65 | no run leaves a waiter asleep with the signal up if and only if at most one thread waits |
| LatchRuns.TwoWaiters | src/mysql/flatch.hpp:58-65 | for every count, a run in which the second waiter sleeps on |
| HandOff.RunKeepsAll | src/mysql/mysql_simple_pool.cpp:138-238 | the invariant of callers, queue, worker and latches that every step keeps |
| HandOff.OwnedOnce | src/mysql/mysql_simple_pool.cpp:154-234 | in every run the accepted contexts are, in order and each once, the finished ones, the one the worker holds and the queued ones; held and queued ones belong to calls still running, and the worker never follows one whose call has returned |
| HandOff.AnsweredInOrder | src/mysql/mysql_simple_pool.cpp:154-234 | in every run the worker executes each accepted context once, in queue order, with its own statement, and a call returns only with the filled-in answer of its own execution, never null |
| HandOff.ResultOnTheWay | src/mysql/mysql_simple_pool.cpp:165-234 | in every run the result pointer of the call whose context the worker holds is null, then an empty result while the statement runs, then its answer; a running call's latch is up exactly when its context is finished |
| HandOff.NoDeadlock | src/mysql/mysql_simple_pool.cpp:383-401 | in every run, while calls are running, the worker and all of the callers are never asleep together |
| HandOffProgress.EveryCallCanReturn | src/mysql/mysql_simple_pool.cpp:138-238 | after every run, every running call can still return, with the answer of its own execution, by moves among which there is no spurious wake-up and no timeout |
| HandOffProgress.ParkedIsAccepted | src/mysql/fqueue.hpp:63-142 | a caller parked in `add_block`, among any number of others, can still get its context into the queue |
| ModelNodes.Node.Clear | src/model.cpp:85-90 | deletes what the items own, no node twice |
| ModelNodes.Node.PushBack | src/model.cpp:100-106 | the list shows the items and a copy of the model, of nodes nobody else owns; the model may be part of the list |
| ModelNodes.Node.PushFront | src/model.cpp:92-98 | the same in front |
| ModelNodes.Node.PopFront | src/model.cpp:108-113 | the other items stay, and what the first owned leaves the list |
| ModelNodes.Node.PopBack | src/model.cpp:115-120 | the same at the end |
| ModelNodes.Node.Set | src/model.cpp:122-128 | one item is replaced by a copy and what it owned is deleted; without effect outside the list |
| ModelNodes.Node.At | include/model.h:567-574 | the item, or null outside the list |
| ModelNodes.Node.Assign | include/model.h:499-510 | between lists, or plain values of one type, the trees become equal and share no node; otherwise nothing changes; a list assigned to itself ends up empty |
| ModelNodes.Node.Clone | include/model.h:493-497 | a copy has the same tree and consists of new nodes only |
| ModelNodes.Node.ItemStays | src/model.cpp:85-128 | an item that stays in a list through a change, at whatever place, keeps its tree |
| JsonModels.JsonRoundTrip | src/json/json_to_model.cpp:24-200 | encoding a model and decoding into a target gives the model exactly if the target has its shape: types, names, list lengths, and a null only where the model has one |
| JsonModels.ValueRoundTrip | src/json/json_to_model.cpp:30-170 | a plain value comes back through its casts, also uint32 through int32 and char through a signed number, exactly if the target has its type |
| JsonMeaning.EncodeValueExact | src/json/json_to_model.cpp:30-64 | every type is encoded as its own number, bool or string; a char counts as signed |
| JsonMeaning.EncodeExact | src/json/json_to_model.cpp:24-96 | a list becomes the array of its items in order, an object the JSON object of its members by name, a null pointer null |
| JsonMeaning.DecodeValueExact | src/json/json_to_model.cpp:115-170 | by type: which JSON values are taken, within which bounds the library throws, real numbers cut off towards zero and wrapped to the type, anything else without effect |
| JsonMeaning.DecodeItemsExact | src/json/json_to_model.cpp:175-184 | for arrays of any length: the list keeps its length, an item is deleted exactly where the array has a null or has ended, and else decoded from the element at its place; it throws exactly where an element does |
| JsonMeaning.NamedMembers | src/json/json_to_model.cpp:186-199 | members that the JSON object names are decoded from it, a null leaving them; it throws exactly where one of them does |
| JsonMeaning.DecodeOther | src/json/json_to_model.cpp:110-200 | a JSON value of another type than the model changes nothing |
| JsonModels.AbsentMembers | src/json/json_to_model.cpp:186-198 | members that the JSON object does not name are unchanged |
| JsonModels.DecodeTwice | src/json/json_to_model.cpp:110-200 | decoding the same JSON value again changes nothing more |
| JsonModels.DecodeOneMore | src/json/json_to_model.cpp:186-198 | decoding an object is decoding its members one after the other, in any order, and stops where one throws |
| JsonNodes.ModelToJson | src/json/json_to_model.cpp:24-96 | the recursion over the nodes builds the encoding of the tree |
| JsonNodes.JsonToItems | src/json/json_to_model.cpp:175-183 | the loop over a list decodes every item in place from the element at its position, and deletes those that are null or missing in the array; the length stays |
| JsonNodes.JsonToMember | src/json/json_to_model.cpp:188-196 | one name of a JSON object changes that member of the node and nothing else |
| JsonNodes.JsonToModel | src/json/json_to_model.cpp:110-200 | decoding in place makes the tree of the nodes what the definition on values says, or fails exactly where it throws, and the nodes stay a tree |
| JsonNodes.CopyByJson | src/json/json_to_model.cpp:24-200 | encoding one tree of nodes and decoding into another makes them equal if and only if the other has its shape, and leaves the first as it was |

## Left out

- EscapeLoop.EscapeField: a text that does not fit the wrapper's buffer is excluded by a precondition, since the code then writes past it; `EscapeLoop.FitsExact` says which texts fit by counting bytes.
- SqlPattern.Explode: characters outside ASCII, which index outside the 128-entry tables, are excluded by a precondition.
- UrlPattern.ExplodePathVars: the section index is unbounded here and 32 bits wide in the code.
- AccessPath.GetListVal: paths that leave objects, null nodes and the failing assertion on an unknown key are undefined (`Unchecked`) and excluded by a precondition.
- AccessPath.GetPlainVal: null nodes on the way are excluded by a precondition, as is an empty section, which splitting never gives.
- SqlBuilder.SqlBuilder.PrepareStatement: reading the last character of an empty statement, values that do not fit the escape buffer and undefined paths are excluded by a precondition (`Undefined`); `Placeholders.UndefinedExact` says which cases these are.
- QueueRuns.EveryRun: running out of memory for a node is not modelled, nor the variants of `add` and `pop` that do not block.
- HandOffProgress.EveryCallCanReturn: says that a running call can return, not that the scheduler lets it; fairness of the scheduler and of the mutex is not modelled.
- HandOff.OwnedOnce: one worker with one queue; `stop`, `tx_end`, the failing allocation of a result and the transaction class are not modelled.
- LatchRuns.LatchLaw: the timeout of `wait` and 2 to the 32 decrements or more are not modelled.
- ModelNodes.Node.Clone: objects, whose copies share object-typed members, and null items, which the code follows, are excluded by a precondition.
- ModelNodes.Node.Assign: assigning a list to one of its parts, or from a tree that holds it, is excluded by a precondition.
- ModelNodes.Node.Set: a model that is part of the deleted item is excluded by a precondition, since the code copies it after deleting it.
- JsonModels.JsonRoundTrip: floating-point values are excluded, and member names are distinct as the member macros make them; text and parser of JSON belong to the JsonCpp library and are not part of this model.
- MySQL itself: connections, retries and results are replaced by an arbitrary answer for each execution.
- StatementMeaning.StatementMeaning: templates that leave a quote open in a literal, so that a placeholder stands inside quotes of the template, are excluded by a precondition.
- SQL comments, numbers in other notations and `NO_BACKSLASH_ESCAPES` are not part of the reader of SQL text.
- `SqlEscape::instance` fixes the character set at its first call; the character set is a constant parameter here.
- `UrlTrie::clear` deletes a variable child without what is below it; releasing the trie is not modelled.
- `fetch_path_vars_prefix`, the trims of str.hpp, enums, casts, logging, the HTTP and RPC services and the function mapper are plumbing or single lookups.
