# A model of the async-smtp client and what it keeps on the wire

This project models the wire protocol of the `async-smtp` client in Dafny and proves what the client and its server can
rely on. It has four layers, and the last file joins them: the dot-stuffing codec, the reply parser with the reader
that feeds it line by line, the printers of commands and parameters, and the transaction and AUTH state machines.

How the program's parts appear here:

- A byte or character on the wire is a Dafny `char` with the same number; text and bytes share the type `string`.
- A server is a function from all bytes it has received to all bytes it has sent (`Connection.Causal` says that it does
  not take anything back). `Connection.ByteStream` is the transport: it holds what was written and how much of the
  server's output was read; reading where nothing is left is the end of the stream. `Connection.Conn` is the same as a
  value. Each method of `Stream.SmtpStream` and `SmtpClient.SmtpTransport` is proved equal to a function on `Conn`
  (`AfterRead`, `AfterCommand`, `AfterMessage`, `AfterHello`, `AfterAuth`, `AfterSend`), and the theorems are about
  these functions.
- The parsers keep the streaming rules of the combinators: `tag` and `take_until` ask for more input where they cannot
  decide, and only `Error` lets an alternative or a repetition go on. `Incomplete`, `Error` and `Failure` are kept,
  error kinds are not.
- The codec, the reader, the xtext printer, the feature reader and the transport are imperative, with the loops and
  fields of the program; parsers, printers without loops, and mechanisms are functions.
- Three specifications are written from the standards and not from the client: the reply printer of section 4.2 of
  RFC 5321 (`ReplyGrammar.Render`), the mail data receiver of section 4.5.2 of RFC 5321 (`Transparency.Receive`), and the
  server's parser of a whole transaction (`ServerGrammar.ParseTransaction`, with the xtext decoder of section 4 of
  RFC 3461). The results connect the client's code to them.

Files, from the bottom up: `Text`, `Nom`, `Response`, `ReplyGrammar`, `Errors`, `Connection`, `Reader`, `Codec`,
`Transparency`, `XText`, `Types`, `Authentication`, `Extension`, `Commands`, `Stream`, `SmtpClient`, `Pipelining`,
`AuthBounds`, `ServerGrammar`, `InitialResponse`, `Session`, `Delivery`. `dafny verify dfyconfig.toml` checks them all.

Where the code does less than one would expect, the model follows the code, and the exact condition is part of the
result:

- Transparency holds if and only if the body is not empty and each dot at the start of a line is one that the codec
  doubles (`Safe`). The codec misses a dot at the very start of a body, and one after a CRLF whose run of CRs is even:
  `LeadingDot` loses a dot, and in `LeadingLoneDot` and `LoneDotAfterEvenRun` the data ends at the dot.
  `ShortestEvenRun` is the shortest body of the latter kind.
- The data ends where it should if and only if the body is not empty and each line that is a single dot has it doubled
  (`BodyBoundary`), which is less than transparency asks for (`SafeBodyEnds`).
- An empty body is followed by two end-of-data marks.
- Xtext is undone by a decoder if and only if every character is from U+0010 to `~`. Shorter numbers are not padded: a
  tab alone is refused and a tab before `A` comes back as U+009A (`TabIsNotRead`). Characters above `~` are sent as they
  are, and section 4 of RFC 3461 does not let them stand for themselves: U+007F is refused, and so is the program's own
  example with a non-ASCII letter (`HighIsNotRead`).
- PLAIN and XOAUTH2 credentials that contain the separator of the mechanism are not read at all, nor are PLAIN
  credentials of which one is empty, which RFC 4616 does not allow (`NotCarried` has one of each).
- Pipelining and lock-step give the same result if and only if pipelining runs out of replies wherever lock-step does,
  both of which are stated on the bytes that the server sends; `StarvingServer` starves lock-step only.
- A reply whose last line is a code alone is refused, though section 4.2 of RFC 5321 allows it (`BareCodeIsRefused`);
  the reply printer, which always puts a space after the last code, describes what the client reads.

The results about a server that answers every line with well-formed replies ask for `Pipelining.Answers` or
`Session.ServesTransaction`. `Session.AnsweringServer`, `Session.ServerExists` and `Delivery.DeliveryServer` construct
such a server for any non-empty lines, for one email and for any number of emails, so these hypotheses can always be met.

## Model

| member | source | states |
|---|---|---|
| Codec.ClientCodec.Encode | src/codec.rs:25-65 | the lazily emitted slices and the field afterwards are those of the byte-by-byte encoding, the end-of-data mark included; the unreachable branches are not reached |
| Codec.CountIsParity | src/codec.rs:39-53 | from a fresh codec the state is 2 exactly after a newline with an odd run of CRs, else 1 or 0 as the run of CRs at the end is odd or even |
| Codec.EncodedIsStuffed | src/codec.rs:38-62 | the automaton's output is the input with dots placed by looking back at the bytes before each dot |
| Codec.StuffedLength | src/codec.rs:54-59 | the output is longer than the input by the number of doubled positions |
| Codec.ChunkingIndependence | src/codec.rs:38-62 | from any state, non-empty frames give the bytes and the state of their concatenation, however CRLF and dot are cut |
| Codec.FramesAreStuffed | src/codec.rs:25-65 | over any non-empty frames from a fresh codec exactly the dots after an odd CR run and newline are doubled, and the length grows by their number |
| Transparency.ReceiveLines | src/codec.rs:38-62 | from any line start the receiver returns the remaining lines exactly if all their line-initial dots are doubled, and otherwise strictly fewer bytes |
| Transparency.BodyTransparency | src/stream.rs:102-120 | the receiver returns the body plus CRLF and leaves what follows if and only if the body is safe and not empty; an unsafe body loses bytes |
| Transparency.BoundaryLines | src/codec.rs:38-62 | from any line start, what complete lines leave over is exactly what follows them if each lone dot among them is doubled, and more bytes otherwise |
| Transparency.BodyBoundary | src/stream.rs:102-120 | the data ends exactly in front of what follows if and only if the body is not empty and each of its lines that is a single dot is doubled; otherwise more bytes are left over |
| Transparency.LeadingLoneDot | src/codec.rs:38-59 | a body that starts with a lone dot arrives empty, and the rest of it and its end-of-data mark are left over |
| Transparency.LoneDotAfterEvenRun | src/codec.rs:39-59 | a lone dot after a first line with an even run of CRs before its newline ends the data there, the rest being left over |
| Transparency.LeadingDot | src/codec.rs:38-59 | any other line that starts a body with a dot arrives without the dot |
| Transparency.EmptyBody | src/codec.rs:27-36 | for an empty body a second end-of-data mark is left over |
| Transparency.ClosedMessage | src/codec.rs:26-36 | any message closed by an empty frame comes back unchanged, with LF, or with CRLF, as its last line was ended, begun or open, if and only if it is safe |
| Transparency.MessageStream | src/codec.rs:26-36 | the codec is fresh after each of several messages, cut into frames anywhere and closed by an empty one, and they come back one by one if and only if all are safe |
| Nom.RepeatStable | src/response.rs:225-229 | repetition of a stable parser is stable: more input changes no verdict |
| Nom.CharAsStable | src/response.rs:189-222 | a one-character tag mapped to a value is stable because `tag` is |
| ReplyGrammar.CodeStable | src/response.rs:175-222 | the code parser, three rounds of alternatives of one-character tags, is stable: a code read or refused stays so on longer input |
| Nom.TakeUntilStable | src/response.rs:227-231 | text taken up to CRLF stays the same whatever follows |
| ReplyGrammar.ParseSeverityIs | src/response.rs:189-196 | reads one character, the one printed for the severity returned, and rejects only what no severity prints |
| ReplyGrammar.ParseCategoryIs | src/response.rs:198-207 | the same for the second digit |
| ReplyGrammar.ParseDetailIs | src/response.rs:209-222 | the same for the third digit |
| ReplyGrammar.ParseCodeIs | src/response.rs:175-187 | a code read prints back to what was consumed; more input is asked for only inside a code |
| ReplyGrammar.ParseCodeOf | src/response.rs:104-108 | a printed code is read back with what follows left over |
| ReplyGrammar.BareCodeIsRefused | src/response.rs:224-240 | a last line that is a code alone is refused, behind any continuation lines |
| ReplyGrammar.ParseOfRender | src/response.rs:224-259 | every rendered reply with lines free of CRLF parses back, leaving exactly what follows |
| ReplyGrammar.RenderOfParse | src/response.rs:224-259 | whatever parses is the rendering of the reply returned followed by what is left over, and its lines are free of CRLF |
| ReplyGrammar.RenderPrefixFree | src/response.rs:224-259 | no rendered reply is the beginning of another |
| ReplyGrammar.ResponseStable | src/response.rs:224-259 | a reply, error or failure stays one on longer input, with the additional bytes left over |
| ReplyGrammar.IncompleteIsNeverADeadEnd | src/response.rs:224-240 | an incomplete input can be completed to a reply if and only if the codes in it, whole and partial, agree, and otherwise to the code mismatch failure |
| ReplyGrammar.HasCodeIs | src/response.rs:156-158 | a reply has the code n exactly if n is 100, 10 and 1 times its three digits |
| ReplyGrammar.CodeOnWire | src/response.rs:156-158 | equivalently, the first three bytes of the reply on the wire read as n in decimal |
| ReplyGrammar.ChallengeOnWire | src/response.rs:156-158 | a reply is taken for a challenge exactly if its bytes start with 334 |
| Reader.ReaderIsOneParse | src/stream.rs:70-99 | the line-by-line loop gives the verdict of one parse of everything available; after a reply exactly the parser's remainder is unread, so the dropped remainder is always empty, and after an error exactly the lines up to the first one with a verdict are consumed |
| Reader.ReadRendered | src/stream.rs:70-99 | a rendered reply is consumed exactly, whatever follows it |
| Reader.ReplyClass | src/error.rs:67-75 | by its first byte a reply is a success, a transient error or a permanent error, and nothing else |
| Reader.ReplySequence | src/stream.rs:70-99 | replies sent back to back are read one by one in order, leaving exactly what follows them |
| Stream.SmtpStream.ReadResponse | src/stream.rs:70-99 | the growing-buffer loop decides as one parse would and leaves the connection as the reader function says |
| Stream.SmtpStream.Command | src/stream.rs:46-49 | writes the command and reads the reply to it |
| Stream.SmtpStream.SendCommand | src/stream.rs:52-55 | writes the command and reads nothing |
| Stream.SmtpStream.Message | src/stream.rs:102-120 | writes the encoded body and a whole end-of-data mark, then reads one reply |
| XText.Format | src/util.rs:12-29 | the loop that jumps between escaped characters prints the per-character encoding |
| XText.RoundTrip | src/util.rs:12-29 | the decoder recovers the text if and only if every character is from U+0010 to the tilde |
| XText.LowCharacterLast | src/util.rs:14-20 | a character below U+0010 at the end of a text is refused by the decoder |
| XText.LowCharacter | src/util.rs:14-20 | a character below U+0010 before a hexadecimal digit is read together with it as one other character |
| XText.HighCharacter | src/util.rs:14-20 | a text with a character above the tilde anywhere is refused by the decoder |
| XText.EncodedChars | src/util.rs:14-20 | the encoding has no equals sign and nothing below an exclamation mark |
| XText.EncodeUnchanged | src/util.rs:14-20 | a text is sent as it is exactly if no character of it is below an exclamation mark, a plus or an equals sign |
| Text.DecReads | src/extension.rs:225 | a printed number reads back as the number, with no leading zero unless it is zero |
| Text.DecOfRead | src/response.rs:156-158 | digits without a leading zero are what the number they read as is printed as |
| Text.WhitespaceIs | src/extension.rs:151 | the characters between words are the 25 of Unicode property White_Space, and no printable ASCII character is one |
| Text.WordsOfSpaced | src/extension.rs:151 | whatever the white space before, between and behind words, splitting gives exactly these words |
| Text.SpacedWords | src/extension.rs:151 | every text is its words with white space before, between and behind them |
| Extension.KeywordRoundTrip | src/extension.rs:93-107 | a printed feature, read as a line of the reply, offers that feature and no other |
| Extension.EhloReplyRead | src/extension.rs:138-183 | for a reply whose lines are given by their words, however spaced, the name is the first word of the first line, and a feature is offered exactly if it is among the words of some line |
| Extension.EhloExample | src/extension.rs:138-183 | the reply mx.example.org, 8BITMIME, AUTH PLAIN LOGIN gives that name and those three features |
| Extension.AddFeatures | src/extension.rs:151-183 | adds exactly the features the line offers, for AUTH the known mechanisms among its words |
| Extension.ServerInfoFromResponse | src/extension.rs:138-189 | fails exactly without a first word; a keyword is a feature if and only if some line offers it |
| Extension.FeaturesIgnoreLineOrder | src/extension.rs:144-183 | lines after the first may be permuted or repeated without a difference |
| Extension.ChooseMechanism | src/smtp_client.rs:132-136 | the earliest accepted mechanism that is among the features, or none if none of them is |
| Extension.MailParameter.Format | src/extension.rs:221-237 | prints the parameter with its value in xtext |
| Commands.FormatParameters | src/commands.rs:55-57 | the printing loop gives all parameters in order, each after a space |
| Commands.MailCommand.Format | src/commands.rs:48-60 | prints the sender or the empty path, then the parameters |
| Commands.RcptCommand.Format | src/commands.rs:76-84 | prints the recipient, then the parameters |
| ServerGrammar.ParameterRoundTrip | src/extension.rs:221-237 | a printed parameter parses back to its meaning if and only if every character of its value is from U+0010 to the tilde |
| ServerGrammar.ParametersRoundTrip | src/commands.rs:55-57 | a printed parameter list parses back to the same keywords and values if and only if every character of every value is from U+0010 to the tilde |
| Types.NewEmailAddress | src/types.rs:23-33 | accepts exactly the strings of visible ASCII characters without angle brackets, unchanged |
| Types.NewEnvelope | src/types.rs:77-85 | fails exactly without recipients |
| Session.PathRoundTrip | src/types.rs:23-33 | the address filter keeps a path intact: the server finds the address and the parameters again |
| Session.RecipientsRoundTrip | src/smtp_client.rs:222-232 | the RCPT commands and DATA are parsed back to the recipients in order |
| Session.OptionsAnnounced | src/smtp_client.rs:199-220 | the MAIL line, as the server reads it, names the sender and carries BODY=8BITMIME exactly when offered and SMTPUTF8 exactly when offered and enabled, each once, and no other parameter |
| SmtpClient.SmtpTransport.Connect | src/smtp_client.rs:105-124 | greeting if expected, EHLO, and the features of the reply; the errors of each step |
| Session.EhloPrinted | src/extension.rs:47-55 | the EHLO line carries a domain name as it is and addresses as literals in brackets |
| Session.HelloExchange | src/smtp_client.rs:105-113 | after a bad greeting nothing is written; otherwise one EHLO line goes out, its reply decides, and whatever the server sent besides is left unread |
| Session.HelloWaitsForGreeting | src/smtp_client.rs:105-113 | against every server, either nothing is written because the greeting could not be read as a positive reply, or one EHLO line is written after a positive greeting, if one is expected, and one parse of the bytes behind it decides |
| SmtpClient.SmtpTransport.TryLogin | src/smtp_client.rs:127-142 | runs AUTH with the earliest accepted mechanism among the features, or writes nothing and succeeds if there is none |
| SmtpClient.SmtpTransport.StartTls | src/smtp_client.rs:147-156 | does what the function for STARTTLS says and hands out the byte stream exactly when that succeeds |
| Session.StartTlsNotOffered | src/smtp_client.rs:147-150 | without STARTTLS among the features nothing is written or read and the result is an error |
| Session.StartTlsExchange | src/smtp_client.rs:147-156 | with it exactly the line STARTTLS is written, the reply to it decides, and all bytes behind that reply stay unread |
| Session.StartTlsAgreed | src/smtp_client.rs:147-156 | against every server, success means that the feature is offered and that a positive reply, and nothing else, was read after that line |
| SmtpClient.SmtpTransport.Auth | src/smtp_client.rs:170-195 | the challenge loop with its counter does what the exchange function says |
| SmtpClient.SmtpTransport.Send | src/smtp_client.rs:198-270 | the command phase, pipelined exactly if PIPELINING is among the features and the client wants it, and then the content, as the transaction function says |
| AuthBounds.AuthLines | src/smtp_client.rs:170-188 | every run sends one to eleven commands, PLAIN and XOAUTH2 one only; each later LOGIN command carries the username or secret its decoded challenge asked for |
| AuthBounds.AuthWireLines | src/smtp_client.rs:170-188 | if base64 puts no CRLF into its output, the bytes written are exactly these commands when cut behind each CRLF |
| AuthBounds.AuthAccounting | src/smtp_client.rs:170-195 | for any well-formed replies the lines of the dialogue are written, every reply is read, and the last reply decides: a negative one, any after ten answered challenges and one that starts with 334 end in errors, any other is the success |
| AuthBounds.AuthSuccess | src/smtp_client.rs:178-194 | success is the positive reply to the last line, its bytes do not start with 334, and fewer than ten challenges came before it; ten challenges always end in an error |
| AuthBounds.OnlyLoginAnswers | src/commands.rs:252-277 | only LOGIN answers a challenge: the username to User Name, Username: and Username, the secret to Password and Password: |
| AuthBounds.ChallengeErrors | src/commands.rs:252-277 | the error for each reason why a reply is not answered |
| AuthBounds.ChallengeCommand | src/commands.rs:230-249 | the line of a command made for a challenge, or the error when there is no answer |
| InitialResponse.CredentialsArrive | src/authentication.rs:89-124 | the server reads the credentials off the first PLAIN or XOAUTH2 line if they are free of the mechanism's separator and, for PLAIN, both not empty, and otherwise reads none |
| InitialResponse.NotCarried | src/authentication.rs:89-124 | an empty user name, a password with a NUL and a user name with a U+0001 are sent in messages that are not read |
| Pipelining.MoreInput | src/stream.rs:70-99 | bytes that arrive early change neither the result of a read nor what is consumed, unless the read had run out |
| Pipelining.PipelinedRefinesLockStep | src/smtp_client.rs:213-256 | against every server a result of lock-step other than starvation is that of pipelining, success reaches the same state, and lock-step has written whole commands from the front of the same sequence |
| Pipelining.LockStepStarvesIff | src/smtp_client.rs:238-255 | lock-step is left without a reply if and only if what the server sends on some command and those before it is a positive reply to each of the latter and an unfinished one |
| Pipelining.PipelinedStarvesIff | src/smtp_client.rs:214-236 | pipelining is left without a reply if and only if what the server sends on all commands is fewer positive replies than commands and an unfinished one |
| Pipelining.ModesAgree | src/smtp_client.rs:213-256 | against every server the two modes give the same result if and only if pipelining starves wherever lock-step does |
| Pipelining.SendModesAgree | src/smtp_client.rs:210-258 | the same for the whole of `send`, where pipelining may also starve on the body; the states are equal when the commands go through, and lock-step never writes more than a beginning of what pipelining writes |
| Pipelining.StarvingServer | src/smtp_client.rs:213-256 | for any two commands there is a server on which only lock-step starves |
| Pipelining.PipelinedAccounting | src/smtp_client.rs:214-236 | the first negative reply is the result and exactly the replies behind it stay unread |
| Pipelining.LockStepAccounting | src/smtp_client.rs:238-255 | lock-step stops at the first negative reply with the commands up to it sent and every reply read |
| Pipelining.BodyWaitsForReplies | src/smtp_client.rs:213-258 | no byte of the body is written before the server, having received the commands alone, has sent a positive reply to each |
| Session.BodyWaitsForAcceptance | src/smtp_client.rs:198-258 | the body is written only after the server, having received the commands alone, has sent positive replies to MAIL, to every RCPT, one at least, and to DATA |
| Session.SendAccounting | src/smtp_client.rs:210-270 | for any well-formed replies, the first negative one to a command is the error, with the replies behind it unread when pipelined and none in lock-step, and no body byte written; without one the reply to the body, positive or negative, is the result, with nothing unread and all bytes written |
| Session.TransactionAccounting | src/smtp_client.rs:198-270 | the same with n recipients, one at least, and n + 2 commands: a pipelined failure on reply i leaves n + 1 - i replies, a lock-step return none |
| Session.TransactionParse | src/commands.rs:48-104 | whatever the body, the sender, parameters and recipients parse back, and data and leftover are those the receiver makes of the body |
| Session.TransactionRoundTrip | src/commands.rs:48-104 | the bytes of a transaction parse to sender, parameters, recipients and body with nothing else touched if and only if the body is safe and not empty |
| Session.SentTransaction | src/smtp_client.rs:198-270 | whenever sending succeeds, in either mode and against any server, the bytes written are one such transaction |
| Delivery.SessionRoundTrip | src/smtp_client.rs:198-270 | transactions back to back parse one by one as they were meant, leaving what follows them, if and only if every body is safe and not empty |
| Delivery.SentSession | src/smtp_client.rs:198-270 | when every call of `send` on one transport succeeds, in either mode and against any server, the bytes written are exactly these transactions |
| Delivery.SessionFraming | src/smtp_client.rs:198-270 | a server that parses the bytes of several emails stands, after each of them, exactly in front of the next if and only if no body is empty and every lone dot in them is doubled |
| Delivery.SessionEnvelopes | src/smtp_client.rs:198-270 | then the senders, parameters and recipients are all those meant, in order, whatever became of the data |
| Delivery.DeliveryFidelity | src/smtp_client.rs:198-270 | several emails to a server that answers everything positively are all sent in either mode with every reply read, and recovered if and only if every body is safe and not empty |
| Delivery.WholeRun | src/smtp_client.rs:105-270 | in a run whose steps all succeed, the bytes written are the EHLO line, at most ten AUTH commands and the transactions, which are recovered if and only if every body is safe and not empty |
| Session.WholeSessionFidelity | src/smtp_client.rs:198-270 | if all replies are well formed and positive, sending succeeds in both modes with the last reply and none unread, and the server recovers the transaction if and only if the body is safe and not empty |

## Left out

- Async runtimes, pinning, polling, flushing, write failures and timeouts: writing always works in the model, and a read
  on which the server would stay silent for ever is the end of the stream.
- TLS, sockets, host name lookup, logging, the debug escaping of CRLF and the display of server information.
- Base64 and UTF-8: a pair of functions given from outside, with the assumption that they are inverse only where a
  result says so; invalid UTF-8 in a reply is not modelled.
- Error kinds and needed byte counts of the parser library.
- HELP, VRFY, EXPN, NOOP, RSET and QUIT, the `quit` method, parsing a reply from a whole string, and builder setters.
- The content of a domain client identifier and of keywords of other parameters is not checked by the program; results
  about keywords ask for keywords free of space, equals sign, CR and LF.
- IP addresses are represented by their text; `usize` by natural numbers.
- The parameter of RCPT is the last kind of the MAIL parameter type instead of a type of its own.
- Reading a message from a reader: the message is the text that reading it to the end gives.
- The command phase of `send` is split over methods, one for each mode and one for the writes of the pipelined one; the
  `ehlo` method of the stream is its one command, written out in `Connect`.
- Using a transport again after a pipelined failure: only the number of unread replies is stated.
