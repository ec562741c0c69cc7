# go-tk: a verified model of its stateful parts

A Dafny model of the parts of the toolkit whose promises cover whole runs, and proofs of those
promises:

- `Rate.dfy`: the per-caller rate counter of `transport/http/rate.go`. The class counts calls in
  lock order under any sequence of clock readings. It is compared with a counter that never
  forgets, and that one with windows read off the calls alone.
- `SortId.dfy`, `Minter.dfy`: the sortable ids of `sortid/sortid.go`, a text codec whose order is
  the bytes' order, and a minter that stays monotone while its clock stalls or steps back.
- `Keyset.dfy`, `Walk.dfy`: the pager of `storage/keyset/keyset.go` and the walk a client makes
  with it, from page to page, while rows are inserted.
- `Base64.dfy`, `Strings.dfy`, `Token.dfy`: the bearer token of `crypto/token/token.go` and the
  header that carries it (`authctx/authctx.go`), over a lenient base64 decoder (RFC 4648).
- `Password.dfy`, `Decimal.dfy`: the stored value of `crypto/password/pbkdf2.go`.
- `Bounded.dfy`: the semaphore of `crypto/password/bound.go`, over every interleaving of calls.
- `App.dfy`: the supervisor of `app/app.go` and `RunnerFrom`, over every interleaving.
- `PgErrors.dfy`: error classification over error trees, `storage/postgres/errors.go`.
- `Bytes.dfy`, `Division.dfy`, `Sets.dfy`, `Wrappers.dfy`: byte order, big-endian words, quotients,
  finite sets, results.

`dafny verify dfyconfig.toml` checks all of it.

Conventions. A Go string is a sequence of bytes, and each `char` of a text stands for one byte.
Instants and durations are nanoseconds as integers; 64-bit wrap-around, `Duration` saturation and
`int` range errors are written out where the source can meet them. Clock readings and random bytes
are arbitrary inputs, SHA-256 is left out and PBKDF2 is an arbitrary function. A clock is read
outside the lock that orders the calls, so a run's readings come in any order unless a lemma says
`NonDecreasing`. In `App`, a runner is its position in name order.

Where the code and its own words differ, the model follows the code:

- `transport/http/rate.go:227-229` says a refusal's delay is no longer than the window. It is longer
  when the clock was read behind the instant the window opened; `Rate.DelayUnderAnyClock` gives the
  exact condition and `Rate.BackwardClockOutlastsTheWindow` an input.
- `transport/http/rate.go:168-173` bounds what the map holds by two windows. A clock that never reads
  before the zero `time.Time` keeps that bound in every ordered run. One that does can break it while
  the last reading is short of a window past the zero time, since no sweep is due until then: exactly
  when it began two windows or more before that reading (`Rate.MemoryBoundIff`).
- `sortid/sortid.go:140` says an id is greater than every one minted before. `Minter.KeepsOrder` is what
  a call needs of the clock and the last timestamp for that: a clock that has moved on has moved on in
  its low 60 bits, and under one that has not the last timestamp's are not all ones.
  `Minter.NextIsGreatestIff` proves it exact for one call, `Minter.OrderedIff` for a whole run. It fails
  for a clock past the year 10889 (`Minter.FarClockBreaksTheOrder`) and for one that reads a nanosecond
  before 1970 and then 1970 (`Minter.ClockBeforeTheEpochBreaksTheOrder`). A clock from 1970 on with room
  for the ids below 2^60 keeps it (`Minter.ClockWithRoom`).

## Model

| member | source | states |
|---|---|---|
| Rate.Cadence.Count | transport/http/rate.go:214-235 | one call: the answer of the key's own greedy windows whenever readings came in order, and a positive, bounded delay in any order |
| Rate.Cadence.Sweep | transport/http/rate.go:242-252 | the deleting pass drops exactly the entries whose window has passed, once per window |
| Rate.CountWithin | transport/http/rate.go:179-189 | a ceiling below one and a window of zero or less are refused at wiring, and nothing else |
| Rate.SweepIsInvisible | transport/http/rate.go:237-252 | under ordered readings the counter that forgets answers every call, verdict and delay, as one that never deletes an entry |
| Rate.Simulation | transport/http/rate.go:242-252 | what is held is what the reference holds, and what was dropped was already over |
| Rate.BackwardClockShowsTheSweep | transport/http/rate.go:214-252 | an input where a reading behind the sweep gets a call the reference refuses, so the order of readings is needed |
| Rate.ReferenceIsGreedy | transport/http/rate.go:222-234 | the first `ceiling` calls of each window a key opened are served, the rest told what is left of it, whatever other keys do |
| Rate.ReferenceHoldsWindows | transport/http/rate.go:191-196 | a key's entry is its current window and the calls served in it, in any clock order |
| Rate.WindowsOpenApart | transport/http/rate.go:222-225 | successive windows of one key open at least a window apart |
| Rate.TwoCeilingsAtMost | transport/http/rate.go:222-234 | any half-open interval of one window's length serves a key at most twice the ceiling |
| Rate.DelayUnderAnyClock | transport/http/rate.go:226-231 | a refusal's delay is above zero and past the window by no more than the clock stepped back; within it exactly when the window opened no later than the reading |
| Rate.BackwardClockOutlastsTheWindow | transport/http/rate.go:227-230 | an input whose delay is longer than the window |
| Rate.MemoryIsBounded | transport/http/rate.go:168-173 | every entry opened inside two windows, so no more entries than distinct keys called in them, in every ordered run a sweep was due in or that began inside two windows |
| Rate.MemoryBoundIff | transport/http/rate.go:242-252 | exactly the first and last readings between which every ordered run keeps the bound; a clock at or after the zero time always does |
| Rate.SweepsAreApart | transport/http/rate.go:237-252 | two calls that drop entries are at least a window apart in any clock order, so there is at most one pass a window |
| Rate.RetryAfter | transport/http/rate.go:142-151 | the least whole second count, one or more, covering the delay |
| Rate.RetryPromise | transport/http/rate.go:83-91 | a caller back on the second it was told is served, unless its key opened and exhausted a newer window since |
| Rate.LimitRate | transport/http/rate.go:107-135 | no caller named takes no call; a counter that failed is unavailable, its verdict unread; any other call is answered by the verdict, whatever the clock read, and by the caller's own windows when readings came in order, the header being the least whole seconds covering the delay and one or more |
| SortId.ParseInvertsString | sortid/sortid.go:60-75 | Parse and String are mutual inverses between accepted texts and minted ids |
| SortId.ParseRange | sortid/sortid.go:54-75 | Parse accepts exactly the texts String writes for minted ids |
| SortId.UpperCaseIsRefused | sortid/sortid.go:64-70 | an upper-cased text is the same id to the stdlib and refused here unless upper-casing changed nothing |
| SortId.TextOrderIsByteOrder | sortid/sortid.go:48-52 | texts compare as ids do, dashes included, for all ids |
| SortId.StringLayout | sortid/sortid.go:48-49 | where each byte's two digits stand in the 8-4-4-4-12 text, and the four dashes |
| SortId.HexAlphabet | sortid/sortid.go:48-49 | the digits written are lower-case hexadecimal, and those read are either case |
| SortId.MarshalReadsBack | sortid/sortid.go:85-95 | MarshalText fails on exactly the ids Parse refuses the text of, and otherwise reads back |
| SortId.Cell.UnmarshalText | sortid/sortid.go:112-119 | takes the id a text was written for and is left as it was by any other text |
| Minter.ReadingIsTheClock | sortid/sortid.go:147 | the timestamp is the clock in 4,096ths of a millisecond, rounded down, in 64 bits; for 48-bit milliseconds it is that number and has 60 |
| Minter.StampLayout | sortid/sortid.go:156-165 | where the 60 bits, the version and the variant sit, so that every id minted is a minted() one |
| Minter.TimestampReadsBack | sortid/sortid.go:156-163 | the 60 bits are recoverable from the id |
| Minter.StampOrder | sortid/sortid.go:140-165 | ids of different timestamps sort as those do, whatever the random bytes |
| Minter.StampOrderIff | sortid/sortid.go:159 | exactly when one timestamp's ids are below another's for every random draw |
| Minter.StampIff | sortid/sortid.go:156-165 | two ids are one exactly when their low 60 timestamp bits and all 62 random bits are |
| Minter.MintedIff | sortid/sortid.go:77-79 | minted() holds of exactly the ids a Minter can write, so Parse accepts exactly their texts |
| Minter.IdealIsTheMaximum | sortid/sortid.go:149-153 | closed form: the maximum of the number of ids and of every reading plus the commits since it |
| Minter.LastIsIdeal | sortid/sortid.go:149-153 | the machine word is that maximum until it would pass 64 bits |
| Minter.ClockWithRoom | sortid/sortid.go:142-144 | a clock below 2^60 less the number of ids keeps timestamps to 60 bits and ids in order |
| Minter.SixtyBitsKeepOrder | sortid/sortid.go:145-163 | a run whose timestamps have 60 bits keeps its ids in order |
| Minter.NextIsGreatestIff | sortid/sortid.go:140-154 | exactly when the next id is greater than every one minted before, for every random draw: a condition on the clock and the last timestamp |
| Minter.OrderedIff | sortid/sortid.go:140-154 | exactly the sequences of readings under which the ids of a whole run increase, whatever is drawn |
| Minter.Mint.Next | sortid/sortid.go:145-166 | one id, its timestamp the closed form, its last eight bytes the draw under the variant, and greater than every one minted before while each call had what it needs of the clock |
| Minter.Write | sortid/sortid.go:156-165 | the bytes written in place carry the timestamp's low 60 bits and the draw |
| Minter.MintedInCommitOrder | sortid/sortid.go:145-154 | in every interleaving of clock reads and commits ids increase in commit order, under that same condition |
| Minter.MintedInRealTimeOrder | sortid/sortid.go:140-154 | a call that read its clock after another committed gets the greater id |
| Minter.MintedOnce | sortid/sortid.go:140-166 | no two ids of a run are equal |
| Minter.MintedAtItsReadingOrLater | sortid/sortid.go:145-154 | in every interleaving a call's id carries its own clock reading or a later one |
| Minter.FarClockBreaksTheOrder | sortid/sortid.go:159 | an input past 60 bits whose second id is below the first, whatever is drawn |
| Minter.ClockBeforeTheEpochBreaksTheOrder | sortid/sortid.go:147-154 | an input around 1970 whose second id is below the first, whatever is drawn |
| Keyset.New | storage/keyset/keyset.go:59-73 | exactly the sizes refused at wiring |
| Keyset.ReadSize | storage/keyset/keyset.go:127-144 | the digit loop serves exactly the size texts, under one error for every other |
| Keyset.SizeTexts | storage/keyset/keyset.go:122-144 | those are the empty text and the decimals of 1 to the largest, zeros before them up to the largest's width |
| Keyset.SizesServed | storage/keyset/keyset.go:110 | every size in range is read from its decimal, and the limit past the page never overflows |
| Keyset.ReadQuery | storage/keyset/keyset.go:105-120 | serves exactly a size that is served with no cursor or a minted id's own text; the size is refused before the cursor, and no malformed cursor reads as a first page |
| Keyset.QueryIff | storage/keyset/keyset.go:105-120 | the same of the query as a function, with the bound and the limit of each case |
| Keyset.AboveEveryId | storage/keyset/keyset.go:42-47 | the first bound is above every other 16 bytes, so above every minted id, and is none |
| Keyset.ReadPage | storage/keyset/keyset.go:156-186 | accepts exactly rows within the limit, descending below the bound and minted; otherwise names the first breach |
| Keyset.FirstBreach | storage/keyset/keyset.go:163-177 | the pass over the rows finds the first one out of order or of another version |
| Keyset.NextCursor | storage/keyset/keyset.go:178-185 | the page is the first min(rows, size), `next` is "" exactly when no row was left over, and is read back as the last row's id |
| Walk.WalkServesEveryRowOnce | README.md:785-794 | following next from "" serves exactly the rows held at the first query, each once, newest first, under any sizes and insertions above the cursor |
| Walk.ServedIff | storage/keyset/keyset.go:156-186 | however rows come and go between pages: a row is served exactly when it was held at a visit that answers for it, between its bound and its cursor |
| Walk.PagesDescend | README.md:785-794 | the pages are newest first and strictly so all the same |
| Walk.HeldThroughoutIsServed | README.md:793-794 | no older row is skipped: one held at every visit is served, and none held at none is |
| Walk.EnteringIsServedIff | README.md:793-794 | a row stored by visit k and staying, however early it was minted, is served exactly when it is below that visit's bound |
| Walk.LeavingIsServedIff | README.md:793-794 | a row gone by visit k is served exactly when the walk had passed it by then |
| Walk.AnyWalkIsBounded | README.md:785-788 | following next still terminates, in no more visits than rows ever held and one |
| Walk.WalkIsBounded | README.md:793-794 | a walk makes no more visits than there were rows, and one visit of none |
| Walk.WalkGoesOn | storage/keyset/keyset.go:178-185 | a walk that has not ended has a next visit under any size |
| Walk.VisitsAtOneSize | README.md:785-788 | every page but the last of an ended walk at one size is full, and the last is not past it |
| Walk.WalkLength | README.md:785-788 | from "" at one size s, a store of n rows takes exactly max(1, ceil(n / s)) visits |
| Walk.AnswerExists | README.md:766-783 | over any store every query has an answer in the order and within the limit it asks for |
| Walk.WalkFrom | storage/keyset/keyset.go:105-120 | any request the pager reads starts a walk over the rows held that ends |
| Walk.MintedRowsAreInsertedAbove | README.md:793-794 | rows one minter mints between pages are above every cursor already written, whether the store holds all of its rows or some |
| Walk.InsertedAboveIff | README.md:793-794 | a row inserted late is above a page's cursor exactly when it was minted after the cursor's row |
| Walk.MintedWalkServesEveryRowOnce | README.md:785-794 | from the minter to the pages: a walk over rows one minter goes on minting serves the first request's rows, each once, newest first, in no more requests than those |
| Walk.ServedRowsAreKept | storage/keyset/keyset.go:156-177 | the rows a query answers in the order it asks for are rows Page accepts |
| Token.ReadInvertsReveal | crypto/token/token.go:86-114 | a text is read as a secret exactly when it is what that secret's token reveals |
| Token.RevealedForm | crypto/token/token.go:107-114 | the text of a 32-byte secret has 43 characters and decodes to it; the zero value reveals nothing and is read from nothing |
| Token.Parse | crypto/token/token.go:91-105 | the buffered decode accepts exactly the encodings of 32-byte secrets |
| Token.FourTextsOneAccepted | crypto/token/token.go:97-103 | exactly four 43-character texts decode to a secret, and one of them is accepted |
| Token.LineBreakIsRefused | crypto/token/token.go:97-103 | a text with a line break the decoder would skip is never accepted |
| Token.Cell.UnmarshalText | crypto/token/token.go:165-172 | parsed like Parse, and left as it was by a refused text |
| Token.BearerIff | authctx/authctx.go:26-37 | a token is read exactly off the scheme in any case, one space or more, and a token with no blank |
| Token.HeaderCarriesSecret | authctx/authctx.go:20-37 | the headers that bring a secret back are exactly those carrying what its token revealed |
| Base64.DecodeReadsEncode | crypto/token/token.go:60-65 | decoding what was encoded gives the bytes back, in both alphabets |
| Base64.LooseSextets | crypto/token/token.go:97-100 | of a text's last character the decoder ignores the unused low bits, four with one byte left over and two with two, and nothing else |
| Base64.DecodeIff | crypto/token/token.go:97-100 | exactly the texts that decode to some bytes: line breaks aside, the encoder's but for those bits |
| Base64.AlphabetIs | crypto/token/token.go:60-65 | each sextet's character in both alphabets of RFC 4648, written and read |
| Base64.SextetsSpell | crypto/token/token.go:60-65 | each group of characters is the number its three bytes are, high bits first, the unused low bits zero |
| Base64.ForeignIsRefused | crypto/password/pbkdf2.go:174-182 | a character of no alphabet that is no line break refuses the text, a pad among them |
| Base64.LineBreakIsSkipped | crypto/token/token.go:97-100 | a line break of either kind anywhere changes nothing |
| Password.ParseReadsPrint | crypto/password/pbkdf2.go:98-120 | what Hash writes reads back as exactly its cost, salt and key |
| Password.ParseIff | crypto/password/pbkdf2.go:159-185 | a value is read exactly when its five fields spell a cost, a salt and a key in forms their readers take |
| Password.ReprintReadsTheSame | crypto/password/pbkdf2.go:145-185 | a value's reprint reads the same, and is the same text exactly when Hash could have written it |
| Password.LooseCostReadsTheSame | crypto/password/pbkdf2.go:169-172 | a sign and zeros before the cost are read and never written, so the parser is many-to-one |
| Password.LineBreakReadsTheSame | crypto/password/pbkdf2.go:174-182 | so are line breaks anywhere in the salt and the key, and the text is the written one exactly with none |
| Password.LooseBitsReadTheSame | crypto/password/pbkdf2.go:174-182 | so are the unused bits of the salt's and the key's last characters, and no other character of the alphabet |
| Password.VerifyUnderTheStoredCost | crypto/password/pbkdf2.go:122-143 | any hasher verifies any other's value: nil exactly when the two derived keys are equal, a mismatch when they differ |
| Password.VerifyIff | crypto/password/pbkdf2.go:127-143 | of any stored text: nil exactly when it spells a cost, a salt and a key the password derives, a mismatch exactly when it derives another, unreadable otherwise |
| Password.HashWrites | crypto/password/pbkdf2.go:98-120 | a value is written for every password whose key can be derived, under the hasher's cost and the salt drawn |
| Password.WrittenForm | crypto/password/pbkdf2.go:113-119 | the stored value laid out, its salt 22 characters and its key 43 |
| Password.NewPBKDF2 | crypto/password/pbkdf2.go:76-85 | the last option's cost, the default with none, and a cost below one refused |
| Decimal.AtoiIff | crypto/password/pbkdf2.go:169-172 | Atoi reads a positive number off its decimal after an optional plus and zeros, and off nothing else |
| Decimal.ItoaSpells | crypto/password/pbkdf2.go:116 | a number's text digit by digit from its last, with no zero before the first |
| Decimal.WidthIsMonotone | storage/keyset/keyset.go:131 | a greater number has no fewer digits, which makes the width check safe |
| Bounded.RunKeepsInv | crypto/password/bound.go:56-73 | the buffered places are the calls between take and give-back, never more than the places |
| Bounded.InsideIsBounded | crypto/password/bound.go:20-22 | no more than `places` calls are inside the wrapped hasher, in any interleaving |
| Bounded.RefusedIffEveryPlaceHeld | crypto/password/bound.go:64-71 | a call is refused at its take exactly when every place is held |
| Bounded.GiveBackNeverBlocks | crypto/password/bound.go:73 | an unwinding call, panicking or not, always finds its place |
| Bounded.CallsNeverWait | crypto/password/bound.go:64-73 | every call's next step can be taken whatever the others do |
| Bounded.QuiescentIsFree | crypto/password/bound.go:28-30 | every place is free exactly when no call holds one |
| Bounded.EndsAreFinal | crypto/password/bound.go:77-93 | a refused call never reaches the wrapped hasher and an outcome never changes |
| Bounded.OverWasInside | crypto/password/bound.go:77-93 | a call's outcome is the one the wrapped hasher gave it |
| Bounded.Places.Call | crypto/password/bound.go:77-93 | one call alone: ErrBusy or the hasher's own end, and the place is back either way |
| App.CancelledByAReturn | app/app.go:88-90 | while Run is in progress the context is cancelled only by the parent or after some runner returned |
| App.RunReturnsEveryError | app/app.go:92-122 | Run returns after every runner has, its error joining exactly the errors that are not nil, each once and in name order, and leaves its context cancelled |
| App.RunExists | app/app.go:94-122 | whatever each runner is to return there is a run in which it does and Run returns |
| App.RunnersAreFree | app/app.go:104-110 | a runner inside its Run may return anything at any moment |
| App.ReturnCancelsTheRest | app/app.go:105-108 | a return is two steps of its own goroutine from cancelling the rest, for good |
| App.StopsAfterCancel | app/app.go:88-90 | over runners with a decreasing rank, no run takes more steps after a cancellation than its rank |
| App.OtherStepsAreBounded | app/app.go:94-123 | however goroutines are scheduled, a run takes at most five steps a runner and two more outside its runners' own work |
| App.NeverStuck | app/app.go:104-122 | until it has returned Run has a step of its own exactly when it does not wait for some runner to return |
| App.AppIsARunner | app/app.go:94-123 | any interleaving of an App with an App that is one of its runners is, to the outer one, a run over a runner of the inner App's rank returning the inner Run's error |
| App.InnerIsARun | app/app.go:94-123 | and to the inner one a run of its own, its parent cancelled when the outer context is |
| App.NestedStopsAfterCancel | app/app.go:88-90 | after a cancellation the steps of both Apps together are no more than the outer's rank |
| App.NestedReturnsEveryError | app/app.go:92-122 | the outer Run returns after the inner and all runners of both, each joining its own in name order, the inner's joined error as its runner's; nil exactly when every runner returned nil |
| App.NestedNeverStuck | app/app.go:104-122 | and neither waits for anything but runners that are no App |
| App.NestedRunnersAreFree | app/app.go:104-110 | and neither holds back the runners of the other |
| App.FromRunKeeps | app/app.go:45-60 | the runner returns start's own error after start returned, and after stop did if it was called; stop is called at most once and only under a cancelled context |
| App.FromStops | app/app.go:45-60 | once stop was called every step nears the return; until then the runner has a step of its own or stop's exactly when it does not wait for start to return |
| PgErrors.AsFindsTheFirst | storage/postgres/errors.go:51-52 | errors.As finds the first node of its type in pre-order |
| PgErrors.IsSearchesEveryNode | storage/postgres/errors.go:75-81 | errors.Is holds exactly when some node matches |
| PgErrors.ClassifyIsStable | storage/postgres/errors.go:63-78 | whatever wraps or joins what Classify returned comes back unchanged |
| PgErrors.ClassifyReadsIntoOne | storage/postgres/errors.go:60-97 | any other tree is read into exactly one class, and ConstraintName is the first refusal's exactly for code 23505 and no missing row |
| PgErrors.HoldsClassIff | storage/postgres/errors.go:63-78 | the trees given back as they are: exactly those with a node of one of the three classes |
| PgErrors.NilStaysNil | storage/postgres/errors.go:70-73 | nil is nil, and no error is read as nil |
| PgErrors.ConstraintNameIsTheFirst | storage/postgres/errors.go:89-97 | ConstraintName is the first violation's in pre-order, and empty without one |
| PgErrors.ConstraintNameThrough | storage/postgres/errors.go:89-97 | a violation keeps its name under any wraps, and under joins with no other before it |
| PgErrors.FailureText | storage/postgres/errors.go:38-56 | the text is fixed but for the SQLSTATE over a chain with a server refusal, and otherwise the cause's own |
| PgErrors.TextShowsTheCodeAlone | storage/postgres/errors.go:38-56 | the text an *Error shows of any chain with a server refusal is equal to another's exactly when the first refusals' codes are |
| PgErrors.ClassifiedTextShowsTheCodeAlone | storage/postgres/errors.go:38-56 | two texts of what Classify returned of such chains are equal exactly when both are a missing row's, or neither and the codes are equal |
| PgErrors.MissingRowIsTheDrivers | storage/postgres/errors.go:11-14 | through any wraps and joins, what Classify returned for a missing row still matches the driver's |

## Left out

- App.StopsAfterCancel: a runner is one that returns within its rank of a cancellation, as its interface asks; the scheduler is taken to run every goroutine that has a step.
- App.RunReturnsEveryError: goroutines writing one shared slice are steps on a value, each its own slot; the Go memory model below mutexes, channels and WaitGroups is not modelled, nor is logging.
- Bounded.RunKeepsInv: the interleaved calls are steps on a value; the channel itself is the class `Bounded.Places`, used by one call at a time.
- Walk.WalkServesEveryRowOnce: over a store that only grows above the cursor; `Walk.ServedIff` and those beside it say what holds of any other. A row is its id; the service's own query is any answer its ORDER BY and LIMIT allow.
- PgErrors.ClassifyIsStable: "unchanged" is equality of trees, not of pointers, and only the error types the package and its driver meet have Is methods.
- Password.VerifyUnderTheStoredCost: constant-time comparison and the derivation itself are not modelled.
- `Token.Stored` and `Issue`, which are the hex of a hash and a random draw, and every redaction hook and JSON entry point.
- `NewMinter` and `Bound` over nil, and error message texts: single checks.
- A counter of the service's own behind `LimitRate`, beyond what it answered a call.
- The router, origins, bearer and right middleware, the server and the JSON envelope: path matching and encoding are the standard library's.
- `config`, `health`, `telemetry`, `storage/postgres` pools and migrations: wiring, or members with little to state.
