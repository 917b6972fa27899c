# A verified model of the GreenSQL proxy

GreenSQL is a proxy in front of a MySQL or PostgreSQL server. It turns each SQL query into a
canonical pattern, decides on the pattern, and passes the bytes on. This project models the code
that does so and proves properties of it. `dafny verify dfyconfig.toml` checks everything.

One file holds one part of the program:

- `Literals`, `Comments`, `Numbers`, `Spaces`, `Negatives`, `Normalize`: the five in-place passes of
  `src/normalization.cpp` as methods with the source's loops. Each loop is proved against a recursive
  function on the text, and the theorems are about those functions: the shape of every pattern, the
  exact set of fixed points, exactly when normalising twice changes nothing more, and that literals
  and numbers leave no trace. The proof of the fixed points rests on a weight of the text (`Text`)
  that every pass either lowers or leaves alone together with the text. `Literals` also holds the lexer's
  own scanner for literals and the proof that both stop at the same place. What the passes do to particular
  characters is stated with the characters written out: spaces, delimiters, tokens, line ends, markers.
- `Wire`, `PgFrames`, `PgStartup`, `MySqlPackets`: the buffer, PostgreSQL framing, the startup message,
  the MySQL greeting and login packets.
- `Traffic`: what both protocols' parsers make of the bytes that arrive, as a value and steps on it.
  `Through` says what any list of socket events comes to: the bytes received from either side, the bytes passed on
  to either, where parsing stands, and how many probes and lost greetings there were. It depends on the events only,
  not on how sockets answer writes.
- `PgMessages`, `MySqlMessages`: the same said from the outside. Messages and packets are printed, byte by byte,
  and what is passed on, held back, noted and rewritten is stated for any list of printed messages and any part of
  one more: whole requests reach the backend, whole responses the client, and a greeting comes out as the same
  greeting without two bits.
- `Relay`: one connection as a class with its four buffers, the flags that steer the parsers, the two
  writer events and ghost histories of every byte and every write call. `Run` takes any list of socket
  events, with any chunks, short writes, EAGAIN and errors, and is proved to come to what `Through` says.
- `Expressions`, `Grammar`, `Parser`: what the grammar's actions compute for an expression, what that says about
  the expression's value on the rows of a table, what a whole parse is flagged for, and the registries that own
  every object. `Grammar` is the parse as one value: the tokens and reductions of any expression leave exactly its
  meaning, and over any conditions a flag is set exactly when one of them sets it. `Parser` is the same on objects.
- `Whitelist`, `Verdict`: the cached whitelist, the risk, the decision of `check_query` and learning.
- `Alerts`, `DbMap`: the two lookup caches and their keys.

Where the code does something else than its comments or its use suggest, the model follows the code:

- Normalisation is not idempotent in general. `Normalize.IdempotentIff` gives the exact condition on the
  text that the comment passes leave, and `Normalize.NotIdempotentWithComments` a query that breaks it. The
  comment at `src/normalization.cpp:24` says that comments are removed; their markers stay, and a block
  comment's search stops at the first `*`, or before the first `/`.
- The comment at `src/normalization.cpp:26` speaks of putting spaces around `=`; no code does that.
- A startup message's option names are compared with the start of the message, not with the place that was
  reached (`src/pgsql/pgsql_con.cpp:230`). For every message shorter than 0x64000000 bytes this makes no
  difference, since its first byte is then no letter; `PgStartup.StartupRoundTrip` has that as its condition.
- Every name and every value in a startup message is taken for `user`, `database` or `options` by its first
  byte (`src/pgsql/pgsql_con.cpp:274-296`), so other parameters may be misread: after `x=on` a database is lost
  (`PgStartup.DatabaseHidden`). `PgStartup.OtherReadIff` says exactly which other parameters are passed by in
  every message; `FaultFrom` computes it from the parameter alone, and `PgStartup.SkippableIsFine` has the plain
  case that neither its name nor its value begins with `u`, `d` or `o`.
- A MySQL login without a database but with text after the password is read as naming one, and so is one without
  a password that ends there while other bytes wait behind it, because a length wraps
  (`src/mysql/mysql_con.cpp:277-279`): `MySqlPackets.LoginWithoutDatabase` says exactly when, whatever follows, and
  `MySqlPackets.LoginReadsOn` gives an input.
- Eight bytes in a PostgreSQL request buffer are taken for an SSL probe and dropped, whatever they are.
  `Relay.Connection.AccountedMeansConserved` says that the client's bytes are conserved exactly as long as
  this has not happened, and `Relay.Connection.Run` ties it to the events. The failure of writing the probe's
  answer is ignored by the code; writer interest is then right again after the next successful write
  (`probeFailed`).
- A MySQL greeting that is followed by one to five more bytes before the login is lost: these bytes overwrite it
  in the response (`src/mysql/mysql_con.cpp:191-198`). `Traffic.Parsing.Losing` counts its bytes.
- Risk weights are summed in 32 bits. Below 2^31 in all the verdict is monotone
  (`Verdict.MoreRiskNoAcceptance`); from there on it is not, as soon as some findings are refused before their
  weights wrap (`Verdict.MonotoneIffFits`). `Verdict.MonotoneIff` gives the exact condition for every
  configuration, and `Verdict.OverflowingWeights` an instance.
- A backslash-free pattern may hold a quote, which goes into the whitelist's statements as it is: a block
  comment whose search stops early takes a backslash with it (`Normalize.QuoteLeftByComment`).
  `Verdict.QuotableIff` gives the exact condition.
- A pattern learned while the table holds it with inactive rows only is not accepted afterwards, because
  learning adds no second row: `Verdict.Guard.LearnAndReload` says that exactly the others are.
- Keys of alert groups collide for names with commas and for proxies 256 apart (`Alerts.KeysCollide`),
  because the proxy's number becomes one character.

## Model

| member | source | states |
|---|---|---|
| Literals.LookForChar | src/normalization.cpp:352-380 | the closing delimiter found is the one the recursive scan defines: doubled delimiters and escapes skipped, end of text when unclosed |
| Literals.CloseAfterBody | src/normalization.cpp:352-380 | every well-formed body (escapes, doubled delimiters) is skipped whole |
| Literals.BodyBeforeClose | src/normalization.cpp:352-380 | conversely, what is skipped before a closing delimiter is a well-formed body, and that delimiter is not doubled |
| Literals.RemoveQuotedText | src/normalization.cpp:271-300 | the in-place loop equals the pure specification Strip |
| Literals.StripIsClean | src/normalization.cpp:271-300 | the result holds no quote that would open a literal |
| Literals.QuoteCleanMeans | src/normalization.cpp:271-300 | that is: each remaining quote comes right after an odd run of backslashes |
| Literals.StripFixedIff | src/normalization.cpp:271-300 | exactly the clean texts are left alone, any other loses weight |
| Literals.StripIdempotent | src/normalization.cpp:271-300 | the pass is idempotent on every text |
| Literals.StripRendered | src/normalization.cpp:271-300 | a query with any number of literals is stripped to its skeleton with `?`, whatever the literals hold |
| Literals.LiteralGoes | src/normalization.cpp:271-300 | a literal in either quote, also with its own quote in it, doubled or behind a backslash, comes out as one `?` and the code around it stays |
| Literals.GetQString | src/parser/sql.lex:246-309 | the lexer's loop with push-back consumes and collects what the recursive lexer defines, and returns the token of its delimiter |
| Literals.Doubles | src/parser/sql.lex:259-282 | a character is given back to the stream unless it doubles the delimiter |
| Literals.ScannersAgree | src/normalization.cpp:352-380 | for both quotes and every text, the lexer stops right after the delimiter that lookForChar finds, or at the end if there is none |
| Literals.LexedValue | src/parser/sql.lex:246-309 | the token's value is the body with doubled delimiters halved and escapes kept |
| Literals.CleanWithoutBackslash | src/normalization.cpp:271-300 | a clean text without backslashes holds no quote |
| Comments.RemoveCppComment | src/normalization.cpp:100-137 | the block-comment loop equals its specification; non-empty in, non-empty out |
| Comments.CutComment | src/normalization.cpp:110-127 | the edit for one comment: body blanked when its end is found, cut otherwise |
| Comments.RemoveHashComment | src/normalization.cpp:144-169 | the `#` loop equals its specification, which joins the next line to the marker |
| Comments.RemoveDashComment | src/normalization.cpp:176-204 | the `--` loop equals its specification |
| Comments.SkipLine | src/normalization.cpp:154-163 | the two inner loops pass the rest of the line and all line ends after it |
| Comments.RemoveComments | src/normalization.cpp:40-46 | the three passes in order, never emptying a query |
| Comments.CppFixedIff | src/normalization.cpp:100-137 | fixed exactly when every block comment's body is empty, one space, or at the end of the text; else lighter |
| Comments.HashFixedIff | src/normalization.cpp:144-169 | fixed exactly when `#` occurs at the very end only; else lighter |
| Comments.DashFixedIff | src/normalization.cpp:176-204 | fixed exactly when `--` occurs at the very end only; else lighter |
| Comments.UncommentedFixedIff | src/normalization.cpp:40-46 | the three together: fixed exactly when every marker is inert; no pass lets the text grow |
| Text.SpacesAre | src/normalization.cpp:17-19 | exactly the seven characters written out are spaces |
| Comments.HashComment | src/normalization.cpp:144-169 | a `#` takes the rest of its line and all carriage returns and newlines after it, and the next line goes on in the same way |
| Comments.DashComment | src/normalization.cpp:176-204 | two dashes do the same |
| Comments.CommentCut | src/normalization.cpp:110-127 | what becomes of a block comment: closed it shrinks to one space, never closed it loses its text, and at a lone star or a slash the search stops and up to three more characters go |
| Comments.BlockComment | src/normalization.cpp:100-137 | a closed comment anywhere in a query leaves its markers, with one space between them if it was not empty |
| Comments.OpenComment | src/normalization.cpp:100-137 | one that is never closed takes all that follows, as long as no star or slash does |
| Comments.PassOrder | src/normalization.cpp:40-46 | two queries on which the order of the three passes shows |
| Numbers.RemoveNumbers | src/normalization.cpp:206-269 | the loop equals its specification, of which NumberGoes, NameStays and UnnumberedFixedIff say what it does |
| Numbers.NumberEnd | src/normalization.cpp:224-260 | where a decimal, fraction or hex number ends |
| Numbers.ReplaceNumber | src/normalization.cpp:238-265 | the whole number becomes one `?` |
| Numbers.UnnumberedFixedIff | src/normalization.cpp:206-269 | the result has no digit left to replace, and exactly such texts are left alone |
| Numbers.NoNumbersMeans | src/normalization.cpp:206-269 | that is: no digit at an index from 1 on comes right after a character that precedes numbers, of which DelimitersAre has the list |
| Numbers.DelimitersAre | src/normalization.cpp:214-222 | exactly the characters written out precede numbers |
| Numbers.NumberGoes | src/normalization.cpp:206-269 | after any of them a decimal, fraction or hex number becomes `?` anywhere in the query, and the rest of the query goes its own way |
| Numbers.NameStays | src/normalization.cpp:206-269 | a word between them that does not begin with a digit keeps all its digits, and so does a number at the very start |
| Numbers.NumberIsWhole | src/normalization.cpp:224-260 | every decimal, fraction or hex number not continued by the text after it is taken whole |
| Numbers.RenumberAppend | src/normalization.cpp:206-269 | text ending in a character that precedes numbers is treated independently of what follows |
| Numbers.RenumberFilled | src/normalization.cpp:206-269 | any number of number holes comes out as `?`, whatever the numbers |
| Numbers.UnnumberedKeeps | src/normalization.cpp:206-269 | the pass neither opens nor closes a literal or a comment |
| Spaces.RemoveSpaces | src/normalization.cpp:53-94 | both loops and the last erasure equal their specification |
| Spaces.RemoveDoubleSpaces | src/normalization.cpp:58-72 | every run of whitespace becomes one plain space |
| Spaces.RemovePunctuationSpaces | src/normalization.cpp:74-86 | the loop with its two erasures per index equals its specification |
| Spaces.RespacedIsTidy | src/normalization.cpp:53-94 | the result is tidy: plain single spaces, none at a bracket or comma, none at the end |
| Spaces.RespacedIs | src/normalization.cpp:53-94 | the three loops together do what one pass over the characters says: one space for a gap, none after `(` and `,`, before `)` and `,`, and at the end |
| Spaces.TidyMeans | src/normalization.cpp:53-94 | tidy, with the five pairs that never survive written out |
| Spaces.SpacedMeans | src/normalization.cpp:53-94 | the recursive condition read off by index |
| Spaces.RespacedFixedIff | src/normalization.cpp:53-94 | exactly the tidy texts are left alone, so the pass is idempotent |
| Spaces.RespacedKeepsInk | src/normalization.cpp:53-94 | all characters other than whitespace stay, in order |
| Spaces.RespacedKeeps | src/normalization.cpp:53-94 | literals, comments and the absence of numbers are untouched |
| Spaces.TidyMarkers | src/normalization.cpp:53-94 | in tidy text a comment marker followed by nothing of its own is inert |
| Negatives.FixNegativeNumbers | src/normalization.cpp:302-350 | the token loop with its early returns equals its specification |
| Negatives.FixAtBreak | src/normalization.cpp:314-346 | one round: the sign after the token is dropped if the token allows it, and an early return skips nothing |
| Negatives.UnsignedFixedIff | src/normalization.cpp:302-350 | exactly the texts without droppable sign are left alone |
| Negatives.UnsignedIsSignFree | src/normalization.cpp:302-350 | no droppable sign is left, not even one that a removal uncovers |
| Negatives.SignRule | src/normalization.cpp:302-350 | after `select`, `where`, `and`, `or`, `not` and a space, or a token ending in a bracket or comma, a minus before `?` goes, with the one space it may have; after any other token it stays |
| Negatives.NoSignRule | src/normalization.cpp:302-350 | nothing else is changed |
| Negatives.UnsignedKeeps | src/normalization.cpp:302-350 | the pass opens and closes no literal |
| Negatives.UnsignedKeepsMarkers | src/normalization.cpp:302-350 | nor a comment |
| Negatives.UnsignedKeepsSpaced | src/normalization.cpp:302-350 | and keeps the spacing of the earlier pass |
| Negatives.UnsignedKeepsNumberFree | src/normalization.cpp:302-350 | and makes no number appear |
| Normalize.NormalizeQuery | src/normalization.cpp:29-38 | the five passes compute Normalise and never let the query grow; what Normalise makes of a query is said by PatternShape, FixedPointIff, IdempotentIff, SamePattern and NumberInQuery |
| Normalize.PatternShape | src/normalization.cpp:29-38 | the pattern of every query, comments included, is tidy, number-free and sign-free, the characters written out: only plain spaces, no two in a row, none at brackets, commas and the end, no digit after a delimiter |
| Normalize.FixedPointIff | src/normalization.cpp:29-38 | the fixed points are exactly the texts in normal form for all five passes |
| Normalize.LaterPassesKeep | src/normalization.cpp:29-38 | the last three passes preserve both ways what the first two set up |
| Normalize.IdempotentIff | src/normalization.cpp:29-38 | normalising twice equals once if and only if the comment passes left no opening quote and no marker with text after it; for the program, where the pattern is not empty |
| Normalize.IdempotentWithoutComments | src/normalization.cpp:29-38 | in particular for every query without comment markers outside its literals |
| Normalize.NotIdempotentWithComments | src/normalization.cpp:144-169 | a query with two `#` comments for which it fails |
| Normalize.LiteralAbstraction | src/normalization.cpp:29-38 | queries that differ only in what their literals hold have the same pattern |
| Normalize.NumberAbstraction | src/normalization.cpp:206-269 | texts that differ only in their numbers leave the number pass the same |
| Normalize.NumberInQuery | src/normalization.cpp:29-38 | in a query without quotes and comment markers any number after a delimiter may as well be a `?` |
| Normalize.WhereId | src/normalization.cpp:29-38 | so `where id=` with any number has the pattern `where id=?` |
| Normalize.SamePattern | src/normalization.cpp:29-38 | both at once: comment-free queries differing in literals and numbers share their pattern |
| Normalize.PatternIsQuotable | src/normalization.cpp:29-38 | a pattern without a backslash holds no quote exactly when the comment passes left no opening quote |
| Normalize.QuoteLeftByComment | src/normalization.cpp:100-137 | a query whose pattern has a quote and no backslash |
| Wire.Buffer.Append | src/buffer.cpp:24-30 | adds the bytes at the end |
| Wire.Buffer.ChopBack | src/buffer.cpp:33-39 | drops bytes from the front, at most all |
| Wire.Buffer.Pop | src/buffer.cpp:41-49 | moves bytes out: what is taken and what stays make up the old contents |
| PgFrames.StepOverMessages | src/pgsql/pgsql_con.cpp:191-199 | the steady loop stops after the longest prefix of whole messages; PgMessages.StretchFramed says which bytes these are |
| PgFrames.StepOverCarefully | src/pgsql/pgsql_con.cpp:492-617 | the other loop: when it completes, and that it releases whole messages or nothing; PgMessages.StretchReleased says which bytes these are |
| PgFrames.WholePrefixIsWhole | src/pgsql/pgsql_con.cpp:174-208 | what is stepped over is a concatenation of whole messages |
| PgFrames.WholeIffAllReleased | src/pgsql/pgsql_con.cpp:174-208 | everything is stepped over exactly when the bytes end on a message boundary |
| PgFrames.AfterWhole | src/pgsql/pgsql_con.cpp:174-208 | after whole messages the rest is framed and released on its own |
| PgFrames.ChunkingIndependence | src/pgsql/pgsql_con.cpp:174-208 | over any chunking and any choice of path: nothing lost or reordered, only whole messages released, all of them at a boundary; PgMessages.MessagesDelivered is the same for printed messages |
| PgFrames.ReceiveOne | src/pgsql/pgsql_con.cpp:174-208 | the same for one read after whole messages |
| PgMessages.MessageRead | src/pgsql/pgsql_con.cpp:135 | at a message printed with its length, high byte first, the parser reads its type and its size, and then what comes after it |
| PgMessages.StretchFramed | src/pgsql/pgsql_con.cpp:135-152 | of any messages and part of one more, exactly the messages are stepped over |
| PgMessages.FramedIff | src/pgsql/pgsql_con.cpp:135-152 | the bytes the relay is proved for are exactly messages, one after the other, and at most part of one more |
| PgMessages.WholeIff | src/pgsql/pgsql_con.cpp:174-208 | and whole are exactly the bytes of messages, one after the other |
| PgMessages.StretchReleased | src/pgsql/pgsql_con.cpp:174-208 | what each path of parseResponse releases of them: all messages, or nothing while the header of an incomplete one is there |
| PgMessages.MessagesDelivered | src/pgsql/pgsql_con.cpp:174-208 | however a server's messages are cut into reads: the first so many are released, all of them when nothing is incomplete or the last read is only stepped over |
| PgMessages.RequestsTaken | src/pgsql/pgsql_con.cpp:92-154 | of a client's messages exactly those that are complete are passed on, and a password among them is noted |
| PgMessages.PasswordSeen | src/pgsql/pgsql_con.cpp:308-316 | a password is a message of type `p`; one with eleven bytes after its length goes unnoticed |
| PgMessages.ResponsesShown | src/pgsql/pgsql_con.cpp:174-208 | what the client is shown of a server's messages and which flags change, with the conditions for looking into them |
| PgMessages.StartupTaken | src/pgsql/pgsql_con.cpp:124-133 | a startup message printed with its length: waited for, refused below thirteen bytes, or passed on with all there is |
| PgMessages.ProbeAnswered | src/pgsql/pgsql_con.cpp:104-123 | eight bytes are answered with the letter N and never passed on |
| PgMessages.RequestsDelivered | src/pgsql/pgsql_con.cpp:92-154 | over any run after the startup message and without probes, the backend has been sent exactly the messages that are complete |
| PgMessages.ResponsesDelivered | src/pgsql/pgsql_con.cpp:174-208 | over any run without probes the client has been sent the first so many of the server's messages, and all of them where none is incomplete |
| PgStartup.NamesAre | src/pgsql/pgsql_con.cpp:275-290 | the three names, letter by letter |
| PgStartup.ParseProtocolParams | src/pgsql/pgsql_con.cpp:225-244 | the value and the next index for one option |
| PgStartup.ParseStartup | src/pgsql/pgsql_con.cpp:255-304 | the decreasing loop over the parameters equals the recursive scan; shorter messages are refused |
| PgStartup.ScanFine | src/pgsql/pgsql_con.cpp:272-296 | another parameter without fault is passed by |
| PgStartup.ScanEntry | src/pgsql/pgsql_con.cpp:272-296 | a printed parameter, kept or without fault, is read as what it means and the scan goes on right after it |
| PgStartup.ScanEntries | src/pgsql/pgsql_con.cpp:272-296 | the same for any sequence of them |
| PgStartup.StartupRoundTrip | src/pgsql/pgsql_con.cpp:255-304 | a printed startup message gives back the last non-empty value of each of the three, whatever follows it in the buffer, if its other parameters are without fault |
| PgStartup.OtherReadIff | src/pgsql/pgsql_con.cpp:272-296 | another parameter is passed by in every message if and only if it is without fault |
| PgStartup.ScanTakesValue | src/pgsql/pgsql_con.cpp:235-241 | one of which a part is taken for a value leaves that value behind |
| PgStartup.ScanRunsOver | src/pgsql/pgsql_con.cpp:235-243 | one that reading runs over hides the user's name after it |
| PgStartup.SkippableIsFine | src/pgsql/pgsql_con.cpp:291-294 | names and values not beginning with one of the three letters are without fault |
| PgStartup.DatabaseHidden | src/pgsql/pgsql_con.cpp:272-296 | a message of 25 bytes in which a database is lost |
| MySqlPackets.RewriteGreeting | src/mysql/mysql_con.cpp:599-625 | the flag arithmetic on the packet equals the specification |
| MySqlPackets.BitCleared | src/mysql/mysql_con.cpp:610-619 | clearing a bit clears that bit and no other |
| MySqlPackets.GreetingRewritten | src/mysql/mysql_con.cpp:580-629 | same length, every byte but the two capability bytes kept, and of that word exactly bits 0x20 and 0x800 cleared |
| MySqlPackets.ParseLogin | src/mysql/mysql_con.cpp:230-342 | what a first packet of any length tells and which flags it sets |
| MySqlPackets.ParseLogin41 | src/mysql/mysql_con.cpp:256-294 | the 4.1 branch with its length limits |
| MySqlPackets.ParseLoginOld | src/mysql/mysql_con.cpp:295-334 | the older branch with its three early returns |
| MySqlPackets.LoginRoundTrip | src/mysql/mysql_con.cpp:256-294 | every printed login gives back its user and database, whatever the password and what follows |
| MySqlPackets.LoginWithoutDatabase | src/mysql/mysql_con.cpp:256-294 | without a database the user is read back, and no database exactly when nothing or an empty text follows the password, in the packet or, where the length limit wraps, behind it |
| MySqlPackets.LoginReadsOn | src/mysql/mysql_con.cpp:272-279 | a login of 39 bytes whose database is read from the next packet |
| MySqlMessages.Protocol41 | src/mysql/mysql_con.cpp:240-243 | which bit of the client's flags tells the 4.1 protocol |
| MySqlMessages.OldLoginRoundTrip | src/mysql/mysql_con.cpp:295-334 | an older login, too, gives back its user and database, whatever the password and what follows |
| MySqlMessages.OldLoginWithoutDatabase | src/mysql/mysql_con.cpp:295-340 | and without a database only its user, which a packet of ten bytes does not have |
| MySqlMessages.SizeRead | src/mysql/mysql_con.cpp:98 | at a packet printed with its length, low byte first, the parser reads its size |
| MySqlMessages.PacketsStepped | src/mysql/mysql_con.cpp:147-156 | packets with at least two bytes in their bodies are all stepped over, and part of one more is not |
| MySqlMessages.SmallOneWaits | src/mysql/mysql_con.cpp:147-156 | a smaller one that comes last waits, unless it is alone |
| MySqlMessages.ResponsesShown | src/mysql/mysql_con.cpp:126-205 | what the client is shown of a server's packets when no greeting is taken, short responses included, and which flags change |
| MySqlMessages.PortionsFrom | src/mysql/mysql_con.cpp:107-122 | requests leave in portions of the first one's size, and how many is decided exactly by what is left |
| MySqlMessages.RequestTaken | src/mysql/mysql_con.cpp:91-124 | one whole packet is passed on, whatever its size |
| MySqlMessages.RequestsDelivered | src/mysql/mysql_con.cpp:91-124 | a run of packets sent one by one reaches the backend whole and in order |
| MySqlMessages.EqualRequests | src/mysql/mysql_con.cpp:107-122 | requests of one size from seven bytes on are all passed on, and the start of another one is not |
| MySqlMessages.CommandTaken | src/mysql/mysql_con.cpp:343-530 | after the login the command is kept, and the commands whose answer is looked into, by their numbers |
| MySqlMessages.LoginTaken | src/mysql/mysql_con.cpp:230-342 | a login that comes as one packet decides the two flags |
| MySqlMessages.GreetingRewrite | src/mysql/mysql_con.cpp:599-625 | a greeting printed field by field is rewritten to the same greeting without bit 5 of the low and bit 3 of the high capability byte |
| MySqlMessages.GreetsIff | src/mysql/mysql_con.cpp:146-195 | before the login a greeting is taken exactly when a whole one stands in front of at least seven bytes |
| MySqlMessages.GreetingShown | src/mysql/mysql_con.cpp:174-195 | and then the client is shown the greeting without those two bits, and nothing is held back |
| MySqlMessages.GreetingDelivered | src/mysql/mysql_con.cpp:174-195 | so on a new connection one greeting is all the client has been sent, without those bits |
| MySqlMessages.GreetingInTwo | src/mysql/mysql_con.cpp:126-205 | the same when it comes in two reads, unless the first one brings five or six bytes |
| MySqlMessages.GreetingLost | src/mysql/mysql_con.cpp:191-198 | with one to five bytes behind it the greeting is lost, and only they are shown |
| Relay.Connection.SocketWrite | src/greensql.cpp:273-297 | some of the bytes go out, or the call fails |
| Relay.Connection.EnableEventWriter | src/greensql.cpp:411-426 | the chosen writer event is added, the other one untouched |
| Relay.Connection.DisableEventWriter | src/greensql.cpp:428-443 | the chosen writer event is removed, the other one untouched |
| Relay.Connection.ProxyWriteCb | src/greensql.cpp:486-522 | all of response_out is offered to the socket; bytes move from the buffer to the sent history, and the writer event ends up added exactly if bytes remain |
| Relay.Connection.BackendWriteCb | src/greensql.cpp:605-647 | the same for request_out; a failure before the first response is tolerated with the event added |
| Relay.Connection.ParseRequest | src/pgsql/pgsql_con.cpp:92-154 | what leaves request_in and what it becomes, whether it is refused or a probe, and the state of parsing afterwards, for both protocols |
| Relay.Connection.PgParseRequest | src/pgsql/pgsql_con.cpp:92-154 | the PostgreSQL case: startup message, probe, or the longest prefix of whole messages |
| Relay.Connection.AnswerProbe | src/pgsql/pgsql_con.cpp:104-123 | eight bytes are dropped and the answer goes to response_in or response_out |
| Relay.Connection.PgStepOverRequests | src/pgsql/pgsql_con.cpp:135-152 | the request loop stops after the whole messages and notes a password among them; PgMessages.RequestsTaken says so for printed messages |
| Relay.Connection.MySqlParseRequest | src/mysql/mysql_con.cpp:91-124 | multiples of the first packet's size leave the buffer; login and command set the flags |
| Relay.Connection.MySqlStepOverRequests | src/mysql/mysql_con.cpp:107-120 | the loop that reads each header at the start of the buffer |
| Relay.Connection.ParseResponse | src/mysql/mysql_con.cpp:126-205 | what leaves response_in, what the client is shown for it, and the state of parsing afterwards, for both protocols; for printed messages and packets see PgMessages.ResponsesShown, MySqlMessages.ResponsesShown and MySqlMessages.GreetingShown |
| Relay.Connection.PgParseResponse | src/pgsql/pgsql_con.cpp:174-208 | which path runs and what it releases |
| Relay.Connection.MySqlParseResponse | src/mysql/mysql_con.cpp:126-205 | the two loops, the short-packet cases and the greeting, kept or lost; MySqlMessages.GreetsIff says exactly when a greeting is taken |
| Relay.Connection.MySqlParsePackets | src/mysql/mysql_con.cpp:174-204 | whole packets leave the buffer, or the greeting rewritten, or the bytes after it instead of it |
| Traffic.MySqlReleasesWholePackets | src/mysql/mysql_con.cpp:147-156 | only whole packets are released; at most five bytes of a header or one incomplete packet stay |
| Traffic.NoneWaits | src/pgsql/pgsql_con.cpp:92-154 | after the startup message, parsing requests leaves no whole message |
| Traffic.ThroughGrows | src/greensql.cpp:446-603 | over longer runs bytes received only grow, and probes and losses are never taken back |
| Traffic.ThroughProtocol | src/pgsql/pgsql_con.cpp:104-123 | no run has probes in MySQL or lost greetings in PostgreSQL |
| Traffic.ThroughNext | src/greensql.cpp:446-603 | one more event adds its step, and none if it does not meet the conditions |
| Traffic.ThroughRelays | src/greensql.cpp:563-664 | over a run without probes and greetings the client is shown exactly the server's bytes, but for those that wait |
| Traffic.ThroughForwards | src/greensql.cpp:446-561 | over a run without probes the backend is sent exactly the client's bytes, but for those that wait |
| Traffic.ThroughPastGreeting | src/mysql/mysql_con.cpp:575-629 | after the login no greeting is taken any more, and none ever in PostgreSQL |
| Traffic.ThroughPassesWhole | src/pgsql/pgsql_con.cpp:135-152 | after the startup message and without probes only whole messages are passed on to the backend |
| Traffic.UpTo | src/greensql.cpp:446-664 | all of this for a run that ended anywhere |
| Relay.Connection.LookIntoPackets | src/mysql/mysql_con.cpp:176-195 | a greeting in front is taken out and rewritten, otherwise whole packets are stepped over |
| Relay.Connection.ParseResponsePacket | src/mysql/mysql_con.cpp:575-629 | exactly a whole greeting before the login is taken out and rewritten, whatever follows it |
| Relay.Connection.ProxyValidateServerResponse | src/greensql.cpp:649-664 | exactly the bytes that the parser shows are pushed to the client; keeps the accounts and whole-message release; fails exactly if its write failed |
| Relay.Connection.PushResponse | src/greensql.cpp:656-663 | the reply is accounted for, and offered after what was waiting unless it is empty |
| Relay.Connection.ProxyValidateClientRequest | src/greensql.cpp:524-561 | exactly the bytes that the parser takes are pushed to the backend, and exactly the answer to a probe to the client; keeps the accounts; fails only for a refused startup message or a fatal write |
| Relay.Connection.PushProbeAnswer | src/greensql.cpp:540-553 | the probe's answer goes through response parsing or is written at once |
| Relay.Connection.PushRequest | src/greensql.cpp:557-560 | the request is queued behind what waits, and all of it offered to the backend |
| Relay.Connection.ProxyCb | src/greensql.cpp:446-485 | every invariant is kept; what came of the connection follows the event, with the bytes passed on to both sides, unless a failed write ends it before; it is closed for a failed read, a refused startup message or a fatal write, and for nothing else |
| Relay.Connection.BackendCb | src/greensql.cpp:563-603 | every invariant is kept; what came of the connection follows the event, and if no greeting is taken the client is shown exactly the bytes read, but for those that wait; it is closed exactly for a failed read or a fatal write |
| Relay.Connection.Run | src/greensql.cpp:446-664 | every run of events comes to what the events alone say, up to the last one handled when closed, which needs a reason; so it delivers what RunDelivers says |
| Relay.Connection.RunDelivers | src/greensql.cpp:446-664 | where the events make no probe (never in MySQL), the backend gets the client's bytes, in PostgreSQL as whole messages; where they make no greeting be taken either (never after the login), the client gets the server's bytes; where there never was a probe, all bytes are conserved but for greetings and no wake-up is lost |
| Relay.Connection.AccountedMeansConserved | src/greensql.cpp:446-664 | client bytes = sent to the backend ++ request_out ++ request_in exactly as long as nothing was taken for a probe; then the server's bytes too where no greeting was taken, and always their number but for greetings lost |
| Relay.TakenAndPassed | src/pgsql/pgsql_con.cpp:104-123 | eight bytes go missing per probe and nothing else |
| Relay.DrawnAndShown | src/mysql/mysql_con.cpp:604-629 | without a probe the client is shown as many bytes as the server sent but for lost greetings, and the very same ones where no greeting was taken |
| Traffic.NoneLeft | src/pgsql/pgsql_con.cpp:135-152 | after the whole messages are taken none is left at the start |
| Relay.ReleasedWhole | src/pgsql/pgsql_con.cpp:174-208 | one release from whole messages on keeps that, and leaves nothing at a boundary |
| Relay.RepliedWhole | src/pgsql/pgsql_con.cpp:174-208 | so does the reply that parseResponse makes |
| Expressions.Expression.AddField | src/parser/expression.hpp:92-96 | adds one column, nothing else |
| Expressions.Expression.AddConstString | src/parser/expression.hpp:97-109 | notes a text constant and its length |
| Expressions.Expression.AddConstInt | src/parser/expression.hpp:110-114 | notes a number |
| Expressions.Expression.Add | src/parser/expression.hpp:115-134 | the loop of inserts leaves the union of the columns, and joins the constants' facts |
| Expressions.Expression.Comp | src/parser/expression.hpp:136-173 | size test and one-sided difference hold exactly when the column sets are equal and, unless empty, constants occur in both or in neither |
| Expressions.Expression.IsTrue | src/parser/expression.hpp:175-183 | no column and a constant |
| Expressions.Expression.IsEmptyPwd | src/parser/expression.hpp:185-199 | one column named like a password against an empty text |
| Expressions.PasswordNames | src/parser/expression.hpp:190-193 | the three names, letter by letter, in capitals or not |
| Expressions.EmptyPasswordIff | src/parser/expression.hpp:185-199 | a column compared with texts, however they are put together, is an empty password exactly if it has one of these names and all the texts are empty |
| Expressions.SimilarIsEquivalence | src/parser/expression.hpp:136-173 | the comparison is an equivalence relation |
| Expressions.MeaningOfJoin | src/parser/expression.hpp:115-134 | merging two summaries gives the summary of the combined expression |
| Expressions.DependsOnFields | src/parser/sql.ypp:200-238 | an expression's value depends on a row only through the columns kept |
| Expressions.RowIndependent | src/parser/sql.ypp:181-182 | without columns kept, the value is the same on every row, for every meaning of constants, operators and functions |
| Expressions.RowIndependentIff | src/parser/sql.ypp:181-182 | and only then: with columns some meaning tells two rows apart |
| Expressions.ColumnOrConst | src/parser/sql.ypp:200-238 | an expression without columns has a constant |
| Expressions.SameLeavesFlagged | src/parser/sql.ypp:433-439 | an expression compared with any re-ordering or re-association of its leaves is flagged |
| Expressions.ReorderedFlagged | src/parser/sql.ypp:433-439 | an instance: operands swapped and regrouped |
| Expressions.FlaggedIff | src/parser/sql.ypp:433-439 | exactly which comparisons are flagged, in terms of the leaves |
| Parser.WithoutIs | src/parser/expression.hpp:45-48 | erasing an object takes out that one and keeps the others once each |
| Parser.State.NewString | src/parser/expression.hpp:26-44 | a new object is registered once, at the head |
| Parser.State.NewExpression | src/parser/expression.hpp:80-87 | the same for expressions |
| Parser.State.DeleteString | src/parser/expression.hpp:45-48 | only an object still registered and on nobody's stack is deleted |
| Parser.State.DeleteExpression | src/parser/expression.hpp:88-91 | the same for expressions |
| Parser.State.DoField | src/parser/sql.ypp:213-216 | a column name becomes a column, or a constant when the pattern says so |
| Parser.State.DoText | src/parser/sql.ypp:232-233 | a text becomes a constant and its string is deleted |
| Parser.State.DoNumber | src/parser/sql.ypp:230-237 | a number becomes a constant |
| Parser.State.DoNoArgCall | src/parser/sql.ypp:219 | a call without arguments becomes a constant |
| Parser.State.DoCall | src/parser/sql.ypp:302-304 | a call stands for its arguments |
| Parser.State.DoMerge | src/parser/sql.ypp:200-208 | the right operand is merged into the left one, in place, and deleted |
| Parser.State.DoStar | src/parser/sql.ypp:163 | `*` makes an expression without columns and constants |
| Parser.State.DoTable | src/parser/sql.ypp:164-169 | a table's name is a column whatever the true-constants pattern says, and its string is deleted; likewise at lines 269-270 |
| Parser.State.DoCompareAt | src/parser/sql.ypp:433-439 | comparing two values that stay on the stack, as CASE and BETWEEN do, sets exactly the flag its test gives |
| Parser.State.DoDiscardUnder | src/parser/sql.ypp:387-391 | the last value but one is dropped, as in CASE with ELSE |
| Parser.State.DoTruth | src/parser/sql.ypp:181 | a condition without comparison sets the tautology flag exactly if IsTrue |
| Parser.State.DoCompare | src/parser/sql.ypp:433-439 | a comparison sets the tautology flag, or else the empty-password flag, exactly if its test holds |
| Parser.State.Build | src/parser/sql.ypp:200-238 | for every expression tree the reductions leave one object with exactly its columns and constants, alone of those made on the way in the registry |
| Parser.State.BuildPair | src/parser/sql.ypp:200-208 | two expressions become one with the columns and constants of both |
| Parser.State.ParseComparison | src/parser/sql.ypp:182 | a whole comparison: both flags, in terms of the two expressions' meanings |
| Parser.State.ParseTruth | src/parser/sql.ypp:181 | a whole condition is flagged exactly if it has no columns |
| Grammar.Reads | src/parser/sql.ypp:200-238 | the tokens and reductions of any expression, in any parse, leave exactly one more value, which is what the expression means, and set no flag |
| Grammar.ComparisonParsed | src/parser/sql.ypp:182 | a comparison leaves the stack as it was and sets exactly the flag its test gives |
| Grammar.ComparisonKept | src/parser/sql.ypp:433-439 | so does one whose sides stay |
| Grammar.BetweenParsed | src/parser/sql.ypp:193 | BETWEEN is flagged exactly for what either of its two comparisons is |
| Grammar.TruthParsed | src/parser/sql.ypp:181 | a condition without comparison is flagged exactly if it has no columns |
| Grammar.ChainParsed | src/parser/sql.ypp:185-188 | three expressions compared in a row are always flagged |
| Grammar.ConditionsParsed | src/parser/sql.ypp:181-182 | after any conditions, one after the other, each flag is set exactly if one of them sets it |
| Grammar.ComparisonFlagged | src/parser/sql.ypp:182 | wherever a comparison stands in a parse that gets to it, what it is flagged for shows in the end |
| Grammar.FlagsStay | src/parser/parser.cpp:60-73 | over any further actions a flag that is set stays set |
| Grammar.NoFlags | src/parser/parser.cpp:60-73 | without one of the four actions that may set a flag none is |
| Grammar.OneEqualsOne | src/parser/sql.ypp:182 | `1=1` sets the tautology flag and leaves the other alone |
| Grammar.ColumnWithText | src/parser/expression.hpp:185-199 | a column compared with a text is an empty password exactly for an empty text and one of the three names, and the other way round never |
| Grammar.ColumnWithConstant | src/parser/sql.ypp:213-219 | a column compared with a function without arguments, or with a session constant, is flagged for nothing |
| Grammar.TableParsed | src/parser/sql.ypp:164-169 | a table's name counts as a column, also where it is a session constant |
| Grammar.StarCompared | src/parser/sql.ypp:163 | a star compared with a number is a tautology |
| Parser.State.Execute | src/parser/sql.ypp:158-238 | every action, select lists, tables, CASE and BETWEEN included, changes what the stack and the flags stand for exactly as Grammar.After says, and keeps the registry: exactly the live objects, once each, and no object on the stack deleted |
| Parser.State.QueryParse | src/parser/parser.cpp:60-73 | after any parse, wherever it stops, both flags are those of Grammar.Parsed on the actions, both registries are empty and every object created was deleted, once |
| Parser.State.FreeSqlStrings | src/parser/parser.cpp:160-170 | deleting the head until none is left |
| Parser.State.FreeExpressions | src/parser/parser.cpp:172-182 | the same for expressions |
| Whitelist.DBPermObj.LoadWhitelist | src/dbpermobj.cpp:44-83 | the new cache holds exactly the non-empty patterns with an active row; a failure keeps the old one |
| Whitelist.DBPermObj.CheckWhitelist | src/dbpermobj.cpp:85-92 | the cached permission, 0 when there is none |
| Whitelist.DBPermObj.AddToWhitelist | src/dbpermobj.cpp:94-140 | one row is added exactly if none for the pattern is there; it is active then unless only inactive rows were there |
| Whitelist.RowsStay | src/dbpermobj.cpp:94-140 | rows stay found while the table only grows |
| Whitelist.ActiveRowIs | src/dbpermobj.cpp:60-76 | what permits a pattern: a row with the proxy, the database and the pattern whose number is positive |
| Verdict.CalculateRisk | src/connection.cpp:181-250 | the sum of the positive weights of what was found, in 32 bits; no reason exactly if it is zero |
| Verdict.EachWeight | src/connection.cpp:190-219 | each of the first four findings adds its own weight, if that is positive, whatever else was found |
| Verdict.EachOtherWeight | src/connection.cpp:220-248 | so does each of the other four |
| Verdict.WrapIs | src/connection.cpp:97 | the total is kept up to 2^32, and read as an int it is in the int range |
| Verdict.DecisionTable | src/connection.cpp:101-178 | the decision by what comes of it: when a query is refused, when it is learned, and the record of each case |
| Verdict.MoreRiskNoAcceptance | src/connection.cpp:101-178 | finding more never turns a refusal into an acceptance while the weights fit an int |
| Verdict.MonotoneIff | src/connection.cpp:101-250 | finding more never helps, in any mode, if and only if no findings that are refused overflow on their way to all of them or, where the block level is not positive, if and only if all findings are refused |
| Verdict.MonotoneIffFits | src/connection.cpp:101-250 | so where some findings are refused before their weights wrap: if and only if all weights together fit an int |
| Verdict.FirstOverflow | src/connection.cpp:190-248 | adding findings one at a time, the first total 2^31 above a multiple of 2^32 is less than 2^32 above it |
| Verdict.WrappedAlike | src/connection.cpp:185 | totals of one stretch of 2^32 lose the same by wrapping |
| Verdict.RefusedByRisk | src/connection.cpp:158-170 | what a positive block level refuses, in terms of the wrapped total |
| Verdict.OverflowingWeights | src/connection.cpp:164-169 | an instance: two risks refused one at a time and accepted together |
| Verdict.OneBlockedRecord | src/connection.cpp:101-178 | a refusal makes exactly one BLOCKED record, an acceptance none |
| Verdict.StrLowercase | src/misc.cpp:102-111 | every letter A-Z is lowered in place, nothing else changed |
| Text.LowerIs | src/misc.cpp:102-111 | each capital becomes its small letter, and nothing else changes |
| Verdict.CaseIgnored | src/connection.cpp:62-65 | with a small letter in the place of a capital a query has the same pattern |
| Verdict.Guard.CheckQuery | src/connection.cpp:55-179 | for a pattern that is not cached: refused exactly in AlwaysBlockNew mode, when blacklisted in PrivilegeBlock or RiskBlock mode, or otherwise in RiskBlock mode from the block level on; learned exactly in the three learning modes; the one record of each case with its kind and level. Cached patterns pass silently; one BLOCKED record exactly for a refusal |
| Verdict.Guard.Judge | src/connection.cpp:99-178 | the nested branches make exactly the decision that DecisionTable spells out |
| Verdict.Guard.Learn | src/connection.cpp:124-141 | a learnable pattern is learned and nothing learned before is lost |
| Verdict.Guard.LearnAndReload | src/dbpermobj.cpp:94-140 | after learning and a reload a pattern is cached exactly if the table did not hold it with inactive rows only |
| Verdict.Guard.Reload | src/dbpermobj.cpp:44-83 | after a reload that succeeds the cache mirrors the table and knows all that was learned |
| Verdict.Guard.Run | src/connection.cpp:55-179 | over any run of queries, mode changes and reloads nothing learned or known is lost |
| Verdict.Guard.LearnedMeansAccepted | src/connection.cpp:81-88 | a learned pattern is accepted without a record after any events, a reload and any further events, in every mode |
| Verdict.Guard.LearnOneAcceptAll | src/connection.cpp:55-179 | from one learned query: every query with the same pattern is accepted |
| Verdict.OnePatternForAllLiterals | src/connection.cpp:62-65 | lowering and normalising gives one pattern for all contents of the literals |
| Verdict.LowerRender | src/misc.cpp:102-111 | lowering a query lowers its code and its literals and keeps them well-formed |
| Verdict.QuotableIff | src/dbpermobj.cpp:123-127 | a pattern reaches the table unchanged exactly if it has no backslash and the comment passes left no opening quote |
| Verdict.QuoteReachesTable | src/dbpermobj.cpp:123-127 | a query whose backslash-free pattern does not |
| Alerts.KeyInjective | src/alert.cpp:164-168 | keys of proxies below 256 and databases without commas tell triples apart |
| Alerts.KeysCollide | src/alert.cpp:164-168 | without either condition they do not |
| Alerts.AddedRow | src/alert.cpp:239-310 | an added row keeps one group per triple exactly if there was none |
| Alerts.Groups.CachedIdNamesTriple | src/alert.cpp:158-176 | a cached id other than 0 names the row with exactly the triple asked for |
| Alerts.Groups.AgroupmapGet | src/alert.cpp:158-176 | the cached id or 0 |
| Alerts.Groups.AgroupGet | src/alert.cpp:178-237 | an id of a row for the triple, found whenever there is one and the query can be made |
| Alerts.Groups.AgroupAdd | src/alert.cpp:239-310 | the new row and its cache entry, or no change |
| Alerts.Groups.FindGroup | src/alert.cpp:42-53 | any id found or made names the triple; when a row is added, and that one group per triple survives exactly if it was not there |
| Alerts.Groups.AgroupmapReload | src/alert.cpp:113-156 | the new cache has exactly the rows' keys, each with the id of such a row |
| Alerts.Groups.Run | src/alert.cpp:30-176 | through every mix of alerts and reloads the cache agrees with the table, and while lookups succeed no triple gets two groups |
| DbMap.Find | src/dbmap.cpp:78-112 | the database's own settings, or those of the default for its type, or the last resort |
| DbMap.KeyInjective | src/dbmap.cpp:83-86 | every proxy and database name has its own key, commas or not |
| DbMap.KeyIsNoDefault | src/dbmap.cpp:94-104 | no database's key is a default's |
| DbMap.OthersUndisturbed | src/dbmap.cpp:78-112 | settings stored for one database change no other lookup |
| DbMap.ItoaInjective | src/misc.cpp:11-17 | different numbers print differently |
| DbMap.DigitsRoundTrip | src/misc.cpp:11-17 | reading the digits back gives the number |

## Left out

Of the text passes:

- Query text is a sequence of characters of which the bytes 0..255 are a part. The space test means 0xA0
  to be a space (`src/normalization.cpp:19`); on a platform with signed characters it would not match.
- Index variables are unbounded: queries are shorter than 4 GiB.
- NormalizeQuery: asks for a non-empty query, since `size()-1` wraps for an empty one; the same holds for
  RemoveCppComment, RemoveDashComment, RemoveSpaces and RemovePunctuationSpaces.
- A `std::string &` that is changed in place is an in-parameter and an out-parameter, so aliasing is not
  modelled. Long loop bodies are methods of their own.
- GetQString: the text holds no NUL, and the change of flex's buffer status at the end is not modelled;
  ScannersAgree is about the two quotes, since back-ticks are a literal to the lexer only.
- SamePattern: for queries whose comment markers, if any, are inert; LiteralAbstraction has no such condition.

Of the relay:

- ParseRequest: check_query accepts everything; refused queries and the responses put in for them
  (`src/mysql/mysql_con.cpp:379-393`) are not modelled, since the code forwards such a query all the same.
- PgParseRequest: the same, for PostgreSQL.
- MySqlParseRequest: the same, for MySQL; requests are not claimed to leave the buffer packet by packet, because
  each header is read at the start of the buffer (`src/mysql/mysql_con.cpp:118-119`).
- ParseResponse: asks for `ResponsesReady`. PostgreSQL messages declare lengths from 4 to below 2^31 - 1 (one
  more and `length + 1` leaves the range of an int) and buffers stay below 2^31 bytes. In MySQL before the login,
  a greeting comes first in the buffer and has at most five bytes after it: with more, the code goes on reading
  through a pointer into a string that it has shortened (`src/mysql/mysql_con.cpp:136, 191-192, 604`), which has
  no defined result. Packets that are no greetings may come in any number.
- MySqlParseResponse: asks for the same.
- LookIntoPackets: asks for the same.
- ParseResponsePacket: a greeting is the first packet in the buffer, for the same reason.
- ProxyValidateServerResponse: asks for the same.
- RequestsReady: the same lengths and sizes for requests, and a probe comes when its answer cannot break a
  message of the server's that waits. Run passes over events that do not meet the conditions.
- Run: up to five trailing bytes of MySQL responses may stay in the buffer.
- GreetingInTwo: a first read of five or six bytes is passed on to the client as it is, and the rest of the
  greeting is then no greeting.
- BlockComment: bodies without stars and slashes; CommentCut says what happens to the others.
- RewriteGreeting: a greeting whose upper capability byte would be its terminating NUL keeps that NUL.
- Sockets, libevent, the acceptor, timers and signals: socket calls answer as they please.
- The names read from a login are not stored on the Connection, and the commands that change the user or the
  database are looked at for their flags only.
- The contents of messages other than the startup message, greeting and login; the logging of errors.

Of the parser:

- The LALR tables: QueryParse takes any sequence of actions and stops where the values do not fit. Which actions
  stand for an expression, a comparison and a condition is said by `Grammar.Actions` and `Grammar.ActionsOf`.
- What sub-selects, CASE, CAST, BETWEEN, IN and joins mean, and SQL's three-valued logic: their actions are
  there, their values are not. The claim about a flagged condition is that its value is the same on every row, not
  that it is true.
- Risk flags other than the tautology and the empty password.
- IsEmptyPwd: ignores case for the letters A-Z only.
- Matching of patterns against names is an arbitrary predicate.

Of the decision and the caches:

- The storage drivers: a statement fails or succeeds as the caller of the model says. A text with a quote or
  a backslash put into an SQL literal may be read as any other text (`Storage.ReadLiteral`); names of
  databases are taken as they are.
- LearnedMeansAccepted: needs a pattern that is Quotable and not held by inactive rows only, a table from which
  no row is deleted, and a reload that succeeds.
- LowerCase: lowers the letters A-Z, as tolower does in the C locale.
- The blacklist test and the parser's findings are parameters of CheckQuery; the texts of reasons and records
  are reduced to their kinds and levels.
- AgroupAdd: asks for names and patterns without quotes and backslashes, proxies below 256 and databases without
  commas. Texts go into the statements unescaped (`src/alert.cpp:199-202, 262-272`), so that with a quote a
  statement may do anything to the table; for the keys see KeysCollide.
- FindGroup: asks for the same. The rows of single alerts and the groups' update times are left out, and the
  counting of changed rows is one of three outcomes of an insert.
- Groups.Run: asks for the same of every alert.
- The end of the learning period and the reading of permissions in dbmap_reload, DBPermObj::Init, proxymap_reload, the
  configuration files and src/riskengine.cpp, which is commented out.
