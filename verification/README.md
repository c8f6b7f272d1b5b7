# A verified model of swlib

This project models six parts of swlib, a toolkit for Go services, and proves what they promise
over all inputs, all runs and all interleavings.

| part | modules |
|---|---|
| the per-key rate limiter and its eviction | `RateLimit`, `RateLimitRuns`, `RateLimitExact`, over `Fractions` |
| the cache of JWT verification keys, and the life of an application | `Jwt`, `KeyCache`, `Supervisor`, `KeyCacheRuns`, `Lifecycle` |
| tar and zip archives | `Paths`, `Files`, `LinkFree`, `Archive`, `Extraction`, `Containment`, `RoundTrip`, `Refusals` |
| one-time passwords, backup codes, otpauth URLs | `Totp`, `BackupCodes`, `OtpAuth`, over `Division` |
| printers and parsers: password hashes, cookies, array configuration | `PasswordHash`, `Cookies`, `ArrayConfig`, over `Strings`, `Decimal`, `Base64` |
| endpoint authorization | `Endpoints`, `Registry` |

`dafny verify dfyconfig.toml` checks everything.

## How it is modelled

Code that updates fields in place is a class here (`Limiter`, `Cache`, `App`, `FileSystem`,
`Writer`, `IntArr`, `EndpointRegistry`), and loops are methods with invariants. Each method is tied
to a function of its inputs and the old state; the lemmas are about those functions.

Concurrency is a transition system: a label for every step a goroutine, the clock or a caller can
take, and a run is any sequence of labels each enabled where it is taken. `Supervisor` has the
control flow of the refresh loop: tick with its result and its recovered panics, and runLoop, which
branches on that result. `KeyCacheRuns` adds the refreshes, one child goroutine for each fetch with
its channel of capacity one, timeouts, reconfiguration, cancellation and readers. The critical
sections under the cache's mutex are single steps. `Lifecycle` has initializers, background
routines, among them the fetcher with the same control flow, the WaitGroup and shutdown.

Time is an integer number of nanoseconds and every clock reading is an argument. Randomness is a
sequence of reads that may fail. HMAC, Argon2id, the verification of a token against a key and the
decoding of base32 are function parameters, so every result holds whatever they compute; of HMAC
only the size of the result is assumed. The conversion of a time step to whole seconds through
float64 is one too: it is exact for whole seconds, and may round a long fractional step up.

What the code takes from Go's standard library and from golang.org/x/time/rate is modelled by its
documented contract: lexical path processing, splitting, decimal numerals, base64, the scanning of
numbers by fmt, and token buckets. A file system is a map from locations to nodes, in which the
operations follow symbolic links as Linux does, and a file has an identity that its hard links share.
Where a statement needs it, the file system is `Sound`: every node has an ordinary name and lies in a
directory, the working directory is one, and all names of a file show the same contents.

## Where a promise holds only under a condition

Each condition is the exact one, proved in both directions, but where it is said to be sufficient only.

- Eviction of idle buckets is invisible, and keeps the rate bound, exactly when a bucket is full
  again before it can be evicted (`EvictionInvisibleExactly`). `Allow` reads the clock twice, for
  `lastSeen` and inside the bucket. With r tokens per nanosecond, for readings up to g apart, the
  condition is `max(0, min(burst, r*g) - 1) + r*max(0, TTL + 1 - g) >= burst`, or a burst that is
  not positive. For g = 0 it is `r*(TTL + 1) >= burst`, which is not enough when the readings differ
  (`GapMatters`). The shipped defaults meet it for exactly the g up to 299.980000001 seconds.
- The prefix test of the extractors accepts exactly the paths that start with the components of the
  destination, and only the destination itself when that is "." or "/" (`PrefixTestExactly`). It
  decides lexical containment exactly for destinations that end in an ordinary name
  (`PathCheckExactly`). The comments of the extractors promise containment without the condition;
  the code is followed.
- These checks are about names. The file operations follow symbolic links in the directory part of a
  path, those that are there before and those that earlier entries make. Extraction does what the
  names say when no entry meets a link (`MeetsNoLink`), which is told from the archive and the links
  beforehand (`ExtractAllIsPlaceAll`). The condition is needed: a file below a path that leads outside
  through a link is written there (`LinkLeadsOutside`), and two link entries that are both accepted
  can make such a path (`LinkThroughLinkMatters`). For a single archive it is sufficient only, since
  a link may lead to a place inside.
- The source of a hard-link entry is not checked, and a file entry over a name of a file changes the
  file under all its names. An extraction that meets no link and ends without an error changes
  nothing outside its destination, but missing directories above it, for all contents of its
  entries, exactly when no file entry is put where a file of outside has a name: one that was there
  before, or one that earlier hard-link entries put, which is told from the archive and the file
  system beforehand (`WritesNothingForeign`, `ContainedExactly`). With both conditions extraction
  stays inside, wherever it stops, exactly for destinations that do not end in ".."
  (`ContainmentExactly`).
- Links that appear in an extraction that meets no link and ends without an error resolve inside the
  destination exactly when every hard-link entry is put where the link it copies resolves inside, of
  the links told beforehand (`LinksContainedExactly`, `HardLinkMatters`).
- A tar archive of a source that does not drop a name of its directory, as "x/.." does, onto a
  destination that keeps its names, extracts exactly when the destination accepts what every link
  resolves to (`TarRoundTrip`); for a destination that ends in a name those are the links that stay
  inside (`AcceptedLinksInside`). All destinations but "." and "/" keep names, and for a source
  such as ".." those that end in "..". Onto "." and "/" only an empty directory without a name
  extracts (`TarOntoRoot`), and of zip archives only those without entries (`ZipOntoRoot`). Every
  source that leads up is refused by "." and by destinations that end in a name (`UpRefused`).
- A zip archive restores the very tree exactly when it has no links and no directory without a file
  below it (`ZipLosesNothingExactly`).
- A cookie lookup is right exactly for the keys that are not a good name, "=" and a padded base64
  value without its last "=" (`LookupRightExactly`): for a cookie "a" with one byte, the key
  "a=QQ=" finds empty data (`PaddedKeyWitness`).
- The cache decides like an endpoint exactly for the profiles that do not allow expired tokens
  (`AgreesWithCacheExactly`).
- The windows of TOTP validation are consecutive counters exactly for steps of whole seconds,
  among all steps a time.Duration can hold (`WindowsAreCountersExactly`). A comment says that
  GracePeriod is 1 by default; the code leaves 0 as it is, and so does the model.
- Drawing backup codes ends, with a source that draws every code again and again, exactly when
  there are as many codes as asked for (`LoopEndsExactly`); there is such a source for every length
  (`CountingIsFair`).
- The default of a string array survives `configureFlag` exactly when it is not empty and has no
  comma in an element (`StringDefaultSurvivesExactly`). Every default of an int array survives. A
  flag of several strings is read back from its printed form exactly when none has a comma, is
  blank or has white space around it (`StringSetPrintedExactly`, of lists without commas).
- Acceptance by an endpoint grows with the set of keys exactly for profiles that are not public
  (`MonotoneExactly`): a public endpoint lets an unverifiable token pass, but not a verified one
  whose claims it rejects.
- For endpoints that start with "/", registrations for a method are kept apart from all others, in
  every lookup, exactly when the method does not start with "/" and has no space that a "/" follows
  (`KeptApartExactly`).

## Model

| member | source | states |
|---|---|---|
| RateLimit.Limiter.constructor | ratelimit/limiter.go:35-42 | a new limiter has no buckets and the given limits |
| RateLimit.Limiter.Allow | ratelimit/limiter.go:46-57 | creates the key's bucket full when missing, marks it seen, refills it, takes one token if there is one and answers whether it did; all other buckets unchanged, and buckets stay unshared |
| RateLimit.Limiter.Evict | ratelimit/limiter.go:63-73 | whatever the order of the sweep, the survivors are exactly the buckets that were present and seen within the TTL, unchanged |
| RateLimit.EarlierReading | ratelimit/limiter.go:56 | a reading before the latest refill refills nothing and takes nothing back |
| RateLimitRuns.IdleIsFull | ratelimit/limiter.go:67-70 | under the condition every bucket that a sweep can remove is full, and stays so |
| RateLimitRuns.EvictionRefinesNoEviction | ratelimit/limiter.go:46-73 | under the condition every run of Allow and Evict on any keys gets the same answers as from a limiter that never evicts, for any difference of the two clock readings up to the gap |
| RateLimitRuns.KeptIsRateBounded | ratelimit/limiter.go:46-57 | without eviction, in every run and every window, a key is granted at most burst + rate * T requests, whatever other keys do |
| RateLimitRuns.InvisibleIsRateBounded | ratelimit/limiter.go:46-73 | a limiter whose eviction is invisible keeps that bound for every window |
| RateLimitExact.PollRunGrants | ratelimit/limiter.go:46-57 | draining a bucket, polling it and a last request with its readings apart leaves just the fractional part of all that was refilled |
| RateLimitExact.SlowRefillBreaksBound | ratelimit/limiter.go:46-73 | for every gap and all limits that fail the condition, some run with a sweep exceeds the bound |
| RateLimitExact.EvictionInvisibleExactly | ratelimit/limiter.go:46-73 | for every gap between the readings and all limits, eviction is invisible if and only if the condition holds, and so is the rate bound kept |
| RateLimitExact.GapMatters | ratelimit/limiter.go:46-57 | limits for which the condition at equal readings is not enough |
| RateLimitExact.DefaultsAreInvisibleExactly | app/ratelimit.go:22-24 | 50 requests per second, a burst of 100 and a TTL of 300 seconds: eviction invisible and rate bounded exactly for gaps up to 299.980000001 seconds |
| Fractions.SmallFraction | ratelimit/limiter.go:56 | for every refill rate and however late: a time at which next to nothing is left beyond whole tokens |
| KeyCache.Cache.constructor | jwtkeys/cache.go:57-63 | no keys, no success yet, the default interval and timeout |
| KeyCache.Cache.Configure | jwtkeys/cache.go:69-78 | positive values replace the settings, others keep them; keys and staleness untouched |
| KeyCache.Cache.NoteStale | jwtkeys/cache.go:186-200 | reports exactly when stale and not reported within the hour; keys and last success untouched |
| KeyCache.Cache.FinishRefresh | jwtkeys/cache.go:159-181 | only a non-empty success replaces the keys; an error, an empty result or a timeout leaves them and notes staleness |
| KeyCache.Cache.GetPublicKeys | jwtkeys/cache.go:226-232 | the cached keys, an error exactly when there are none |
| KeyCache.Cache.Verify | jwtkeys/cache.go:235-249 | accepts exactly when some cached key verifies the token with default options, with the claims of the first that does; otherwise the error of the last key, or that there are none |
| KeyCache.LastErrorExactly | jwtkeys/cache.go:235-249 | when every key refuses, the error is that of the last key |
| KeyCacheRuns.StepKeepsFetch | jwtkeys/cache.go:149-158 | every step keeps, for every fetch: nothing sent while it calls, room in its channel when it is about to send, at most one message ever, and that message is what the fetch returned |
| KeyCacheRuns.StepKeepsInv | jwtkeys/cache.go:84-200 | every step of every goroutine keeps the invariants of fetches and cache |
| KeyCacheRuns.RunInv | jwtkeys/cache.go:84-200 | the invariants hold in every reachable state |
| KeyCacheRuns.KeysAreLatestGood | jwtkeys/cache.go:159-177 | in every run the cached keys are those of the latest refresh that received a non-empty success in its own select, and until that one has stored them those of the one before |
| KeyCacheRuns.ReadersSeeGoodKeys | jwtkeys/cache.go:215-232 | every reader in every run sees exactly these keys, and none only before the first success |
| KeyCacheRuns.SendsNeverBlock | jwtkeys/cache.go:149-158 | a child about to send always finds room, late or not, and no channel gets a second message |
| KeyCacheRuns.SelectStaysOver | jwtkeys/cache.go:159-181 | a select that has ended never takes a reply of its fetch again |
| KeyCacheRuns.LateRepliesIgnored | jwtkeys/cache.go:178-181 | after a timeout no reply of that fetch is ever taken, and its arrival changes no field of the cache |
| KeyCacheRuns.TimeoutExactly | jwtkeys/cache.go:159-181 | in every run the select of a refresh can time out exactly when the fetch timeout configured last before it began has passed since, whatever is configured meanwhile |
| KeyCacheRuns.KeysStay | jwtkeys/cache.go:146-182 | once there are keys, there are keys for the rest of the run |
| Supervisor.MoveKeepsHonest | jwtkeys/cache.go:101-133 | every move of tick and runLoop keeps: where the goroutine has taken a branch of ctx.Done, or tick is about to return true, the context is cancelled; a recovered panic resets the result |
| KeyCacheRuns.LoopEndsOnlyCancelled | jwtkeys/cache.go:101-133 | the goroutine ends, and tick returns true, only after cancellation, whatever panics occur and wherever; the interval a ticker is made with is always positive |
| KeyCacheRuns.PanicsBackOff | jwtkeys/cache.go:101-133 | after a panic no fetch begins for a minute, in every run |
| KeyCacheRuns.ResumesExactly | jwtkeys/cache.go:101-113 | a back-off ends exactly a minute after tick returned, or on cancellation |
| KeyCacheRuns.DoneEndsLoop | jwtkeys/cache.go:101-133 | once tick has seen the cancellation no fetch begins any more, and the goroutine has ended with the next branch of runLoop, unless it panics before |
| KeyCacheRuns.CanFetchAgain | jwtkeys/cache.go:101-181 | no run is stuck: from every reachable state in which tick has not seen the cancellation, the goroutine can come to fetch again, after any panic and however late fetches are |
| KeyCacheRuns.RunReports | jwtkeys/cache.go:172-200 | in every run staleLogged and lastStaleLog tell exactly of the reports since the latest success |
| KeyCacheRuns.LastSuccessIsLatest | jwtkeys/cache.go:172-177 | in every run lastSuccess is the time at which the latest refresh with good keys stored them, and none before the first, as told from the steps of the run; so are the clock and the settings, the positive values configured last |
| KeyCacheRuns.ReportsExactly | jwtkeys/cache.go:186-200 | a refresh without good keys reports if and only if no refresh of the run stored good keys, or the latest to do so did that as long ago as the interval configured last or longer, and there was no report since, or none within the hour |
| KeyCacheRuns.OutageReports | jwtkeys/cache.go:172-200 | reports between two successes are at least an hour apart, an outage of D hours after its first report logs at most 1 + floor(D), and staleLogged implies no success after the latest report |
| Lifecycle.App.RunInitializers | app/app.go:421-427 | runs every initializer in order, a failing one too; the cache's settings and the attached limiter are what they prepared |
| Lifecycle.StepKeepsInv | app/app.go:391-434 | every step keeps the invariant: WaitGroup equals the unfinished routines, routines start only after all initializers, shipped routines leave their loops only when cancelled |
| Lifecycle.RunTold | app/app.go:397-434 | in every run the phase, the time and how far each routine is follow from what has happened: a stage is reached exactly by its step, and a routine is finished exactly when it has called Done |
| Lifecycle.ShippedEndOnlyCancelled | app/jwtkeys.go:62-74 | in every run the key fetcher and the evictor finish only after the signal, when servers are stopped and the context is cancelled |
| Lifecycle.RoutinesStartInitialized | app/app.go:394-395 | no background routine has started before every initializer returned |
| Lifecycle.ShutdownWaitsForAll | app/app.go:397-418 | the WaitGroup counts the unfinished routines and is never negative; a completed shutdown means that all have finished |
| Lifecycle.PreparedSettings | app/jwtkeys.go:47-56 | the initializers prepare the last positive refresh interval and the last positive fetch timeout, else the defaults, and the last limiter |
| Lifecycle.RoutinesSeeConfiguration | app/ratelimit.go:50-87 | in every run the fetcher ticks at the configured interval, and an evictor that has swept saw the attached limiter |
| Paths.PrefixIsComponents | compression/tar.go:214 | the string-prefix test of rendered paths is a prefix relation of their components |
| Paths.PrefixTestExactly | compression/tar.go:214 | what the test accepts, for every cleaned destination and path |
| Paths.PrefixTestIsInside | compression/tar.go:214 | for a destination that ends in a name the test accepts exactly the destination and its component-wise descendants |
| Paths.PathCheckExactly | compression/tar.go:207-219 | the test of an entry name decides containment for all names if and only if the cleaned destination ends in an ordinary name |
| Paths.ParseRender | compression/tar.go:80 | cleaning a path is reading its components and printing them: printing a canonical path and reading it again gives the same path |
| Paths.TargetCanonical | compression/tar.go:149 | joining the destination and a cleaned entry name leads where resolving the components leads |
| Paths.DirRender | compression/tar.go:160 | the directory of any cleaned path is the path without its last component |
| Paths.RelBelow | compression/tar.go:420-427 | the relative name of a path below the base directory is its components below it |
| Paths.RelJoins | compression/tar.go:420-427 | whenever there is a relative path, joining it to the base leads to the target |
| Paths.JoinIsClean | compression/tar.go:149 | a joined path is empty only when both parts are, and otherwise clean |
| Paths.LastElementParse | compression/zip.go:209 | every source path is its directory with its last element resolved from there |
| Paths.ExtendsExactly | compression/zip.go:209 | a source is its directory extended by a name, by one step up, or by nothing; only a source that ends in ".." below a name drops that name |
| Files.FileSystem.MkdirAll | compression/tar.go:156 | nothing to do where the path leads to a directory, through links too; otherwise first its parent, then the directory itself; fails where something else is in the way |
| Files.FileSystem.WriteFile | compression/tar.go:195-203 | makes a new file where the path leads, or gives the file there new contents, under all its names; a last link is followed too |
| Files.FileSystem.Symlink | compression/tar.go:174 | makes a link in the directory the path leads to, where nothing is yet |
| Files.FileSystem.Link | compression/tar.go:181-182 | gives a file or link one more name, neither path followed through a last link |
| LinkFree.SpotPlain | compression/tar.go:149-163 | without a link on its way a path leads to the location its names say |
| LinkFree.MkdirPlain | compression/tar.go:156 | then exactly the missing directories down to that location are made, or nothing when a file is in the way |
| LinkFree.LinkPlain | compression/tar.go:181-182 | then a hard link gives the node named its new name at the place named |
| LinkFree.LinkLeads | compression/tar.go:158-163 | a symbolic link leads to its target, taken from the root when absolute, else from the directory of the link |
| LinkFree.FortyLinks | compression/tar.go:195-203 | a chain of up to forty links is followed to its file, a longer one nowhere |
| LinkFree.MkdirInKeeps | compression/tar.go:156 | making directories, through links too, changes nothing that is there |
| Archive.ExtractTarFile | compression/tar.go:142-189 | every entry kind, check and error of one entry, with the whole file system after it, links followed where the operations follow them |
| Archive.ExtractZipFile | compression/zip.go:96-117 | the same for one zip entry |
| Archive.Unpack | compression/zip.go:77-93 | extracts entry after entry until one fails; UnTar's loop is the same |
| Archive.Writer.Add | compression/tar.go:369-410 | the walk appends to the archive what the pre-order walk on values gives, for tar and zip |
| Archive.Pack | compression/tar.go:312-343 | an archive of the source holds the walk's entries, named relative to the source's directory |
| Extraction.ParseTarget | compression/tar.go:149-160 | the strings built for any target, and for its directory, read back as those paths |
| Extraction.ValidSymlinkExactly | compression/tar.go:222-239 | for every destination the link check accepts exactly relative links for which it accepts what they resolve to from their directory |
| Extraction.ValidSymlinkIsInside | compression/tar.go:222-239 | for one that ends in a name, exactly the relative links that resolve to it or below it |
| Extraction.ExtractIsPerform | compression/tar.go:142-189 | extraction of any entry to any destination of any file system by strings is extraction by components: same nodes, same error |
| Extraction.PerformIsPlace | compression/tar.go:142-189 | an entry that has no link on its way is put where its names say, or fails the same |
| Extraction.PlacedIsFree | compression/tar.go:142-189 | an entry that can be put where its names say has no link on its way |
| Extraction.LinksTold | compression/tar.go:166-182 | the links after an entry are those told from the entry and the links before |
| Extraction.ExtractAllIsPlaceAll | compression/tar.go:83-95 | an extraction that meets no link puts every entry where its names say, up to the first error, which is the same |
| Extraction.PlacingIsExtracting | compression/tar.go:83-95 | so does one whose entries can all be put where their names say, or are refused |
| Containment.PlaceContained | compression/tar.go:142-189 | an entry put where its names say, that is no file put where a file of outside has a name, changes nothing outside a destination that does not end in "..", but missing directories above it |
| Containment.ForeignTold | compression/tar.go:176-182 | the names inside of files that have names outside, after an entry, are those told from the entry and from the names and links before |
| Containment.ExtractionContained | compression/tar.go:59-98 | every extraction that meets no link and writes no file of outside, of whatever archive and wherever it stops, changes nothing outside such a destination but missing directories above it |
| Containment.ContainedExactly | compression/tar.go:142-204 | one that meets no link and ends without an error does so whatever the contents of its entries if and only if it writes no file of outside, told from the archive and the file system beforehand |
| Containment.ContainmentExactly | compression/tar.go:59-98 | that holds for all archives, file systems and working directories that meet no link and write no file of outside if and only if the destination does not end in ".." |
| Containment.LinkLeadsOutside | compression/tar.go:158-163 | whenever a path below the destination leads through links to a directory outside, a file entry below it is written there |
| Containment.PlaceLinksContained | compression/tar.go:166-182 | one entry put where its names say keeps new links inside if and only if it is no hard link that copies a link which does not resolve inside from there |
| Containment.LinksContainedExactly | compression/tar.go:166-182 | in an extraction that meets no link all links it makes resolve inside if every hard-link entry is right, told from the archive and the links beforehand, and only then when it ends without an error; always without hard links |
| Containment.HardLinkMatters | compression/tar.go:176-182 | an archive that meets no link, extracts without error and has a hard-link entry that is not right |
| Containment.LinkThroughLinkMatters | compression/tar.go:222-239 | two link entries, both accepted, that meet a link: extracted without error, and a link resolves outside, so that a path below the destination leads outside |
| RoundTrip.WalkEntries | compression/tar.go:369-430 | the walk over any well-named tree succeeds and names every entry by its components below the base directory |
| RoundTrip.ZipTellsFiles | compression/zip.go:223-254 | a zip archive has no directory entries and tells no link targets |
| RoundTrip.ParentsFirst | compression/tar.go:369-410 | in a tar archive every entry but the first comes after the directory entry it lies in |
| RoundTrip.PlaceTree | compression/tar.go:142-189 | extracting the entries of a subtree onto a vacant place adds exactly the subtree, and the extraction goes on from there |
| RoundTrip.TarRoundTrip | compression/tar.go:59-98 | for every source that does not drop a name of its directory and every destination that keeps its names: packing any tree and unpacking it onto a vacant place succeeds if and only if all its links are accepted, and then adds exactly the tree at its place, every file with one name, and the directories above it |
| RoundTrip.TarOntoEmpty | compression/tar.go:59-98 | onto an empty directory, by another name than "." or "/", a source that does not lead up and whose links are accepted comes back as itself: extraction succeeds and adds exactly the tree under its base name |
| RoundTrip.AcceptedLinksInside | compression/tar.go:222-239 | for a destination that ends in a name, accepted links are those that resolve inside |
| Refusals.TarOntoRoot | compression/tar.go:207-219 | onto "." and "/" exactly an empty directory that is the destination itself extracts; nothing changes either way |
| Refusals.UpRefused | compression/tar.go:420-427 | the archive of any source that leads up is refused, with nothing changed, by "." and every destination that ends in a name |
| RoundTrip.ZipTree | compression/zip.go:96-117 | extracting the zip entries of a subtree adds exactly its files and the directories above them |
| RoundTrip.ZipRoundTrip | compression/zip.go:77-117 | for the same sources and destinations, packing any tree and unpacking it always succeeds and adds exactly what the zip holds of it |
| Refusals.ZipOntoRoot | compression/zip.go:96-106 | onto "." and "/" exactly the trees without files and links extract; nothing changes either way |
| RoundTrip.ZipKeeps | compression/zip.go:216-254 | what a zip holds: every file with its contents, exactly the directories that are proper ancestors of a file or link, links as empty files |
| RoundTrip.ZipLosesNothingExactly | compression/zip.go:223-226 | the very tree comes back if and only if it has no link and no directory without a file somewhere below |
| Totp.WithDefaults | totp/totp.go:52-69 | the result is always in range, a configuration in range is left alone, and a value out of range becomes its default |
| Totp.AndMask | totp/totp.go:106 | masking the low k bits is the remainder modulo 2^k |
| Totp.OrDisjoint | totp/totp.go:107-110 | or of a shifted word and one below the shift is their sum |
| Totp.Offset | totp/totp.go:106 | all four indices of the truncation stay inside the 20-byte MAC |
| Totp.TruncateIsBigEndian | totp/totp.go:104-110 | shift-and-or of 32-bit words is the 31-bit big-endian number at the offset, nothing shifted out (section 5.3 of RFC 4226) |
| Totp.BigEndianIsValue | totp/totp.go:104-110 | that number is the value of the four bytes there without their highest bit |
| Totp.PowerFits | totp/totp.go:112-115 | 10^CodeLength never overflows a uint32 |
| Totp.PowIsOneAndZeros | totp/totp.go:116-119 | the modulus is written as a one and CodeLength zeros |
| Totp.GenerateCode | totp/totp.go:91-122 | the code of the counter by arithmetic, with all 32-bit and 64-bit wrap-around accounted for, whatever the float64 conversion of the step rounds to; an error exactly for an undecodable secret, else a division by zero exactly for steps below a second |
| Totp.CodeShape | totp/totp.go:121 | a code has exactly CodeLength digits and its value is the truncated MAC modulo 10^CodeLength |
| Totp.RemainderIsTail | totp/totp.go:121 | printing the remainder with leading zeros is taking the last digits of the padded numeral |
| Totp.CodeIsTail | totp/totp.go:104-121 | a code is the last CodeLength characters of the decimal numeral of the truncated MAC, zeros in front (section 5.3 of RFC 4226) |
| Totp.Rfc4226Code | totp/totp.go:91-122 | with the MAC that appendix D of RFC 4226 gives for count 1, the code is 287082 |
| Totp.CounterBytes | totp/totp.go:101-102 | the eight message bytes determine the counter |
| Totp.Validate | totp/totp.go:128-141 | accepts if and only if the code is that of one of the windows from -GracePeriod to GracePeriod |
| Totp.WindowIsCounter | totp/totp.go:99 | with whole-second steps the i-th window is the counter c + i |
| Totp.WindowsAreCountersExactly | totp/totp.go:99 | of all steps a Duration can hold, that holds at all times if and only if the step is a whole number of seconds, however fractions are rounded |
| Totp.ValidateExactly | totp/totp.go:128-141 | for whole-second steps and times at least GracePeriod steps after the epoch: accepted exactly the codes of the counters from c - G to c + G (section 4.2 of RFC 6238) |
| BackupCodes.RandomBackupCode | totp/totp.go:191-202 | one symbol for each byte read, selected by its low five bits; fails exactly when a read fails |
| BackupCodes.AlphabetIsCrockford | totp/totp.go:157-159 | the alphabet is the digits and the capital letters but I, L, O and U |
| BackupCodes.SymbolsUnbiased | totp/totp.go:188-199 | each of the 32 symbols is selected by exactly eight of the 256 bytes |
| BackupCodes.GenerateBackupCodes | totp/totp.go:164-186 | any returned set has exactly n pairwise distinct codes of the asked length over the alphabet, the distinct ones drawn first; `seen` is always the set of `codes`; all error cases |
| BackupCodes.DistinctDrawn | totp/totp.go:172-184 | the codes are exactly those drawn so far |
| BackupCodes.DrawnFirst | totp/totp.go:172-184 | in the order of their first draw: more draws only add codes at the end |
| BackupCodes.AllCodesFacts | totp/totp.go:191-202 | there are 32^length codes, namely the strings of that length over the alphabet |
| BackupCodes.EveryCodeIsDrawn | totp/totp.go:191-202 | every one of them is drawn by some bytes read |
| BackupCodes.NeverMoreThanAll | totp/totp.go:172-184 | pigeonhole: the loop never has more than 32^length codes, so it cannot return more |
| BackupCodes.UnseenRemains | totp/totp.go:172-184 | while there are fewer than 32^length, an unseen code is left |
| BackupCodes.EventuallyEnough | totp/totp.go:172-184 | with a fair source any number up to 32^length is reached |
| BackupCodes.CountingIsFair | totp/totp.go:191-202 | a fair source exists for every length: one that counts through all codes |
| BackupCodes.LoopEndsExactly | totp/totp.go:164-186 | with a fair source the loop ends if and only if n <= 32^length |
| OtpAuth.PercentEncode | totp/totp.go:208-228 | escapes byte by byte what `Encoded` says |
| OtpAuth.EncodedChars | totp/totp.go:208-228 | an encoding has only unreserved characters and '%' |
| OtpAuth.UnreservedExactly | totp/totp.go:222-228 | the characters left alone are the letters, the digits and "-._~" (section 2.3 of RFC 3986) |
| OtpAuth.EscapeExactly | totp/totp.go:216 | any other byte becomes "%" and its two upper-case hexadecimal digits |
| OtpAuth.DecodeEncoded | totp/totp.go:208-220 | percent-decoding undoes the encoding of every byte string (section 2.1 of RFC 3986) |
| OtpAuth.GenerateOTPAuthURL | totp/totp.go:152-155 | builds the URL from the encoded parts; a reader gets secret, account and issuer back from it for every secret without "&" |
| OtpAuth.ReadURL | totp/totp.go:143-155 | a reader splitting at '?', ':' and '&' recovers secret, account and issuer, for all of them with a secret without '&' |
| PasswordHash.CalculatePasswordHash | crypto/hashing.go:64-77 | fails exactly when the random source does; what it prints starts with `$argon2id$v=19$m=65536,t=3,p=4$` and is parsed back as these parameters, the salt and the derived key, and the result of any later verification is that the attempt derives the same key |
| PasswordHash.VerifyPassword | crypto/hashing.go:88-100 | parses the hash with every error of the source, then compares the derived key |
| PasswordHash.VerifyPasswordArgon2id | crypto/hashing.go:111-170 | the loop over parameters is the parser, later ones overriding earlier ones, threads cut to eight bits |
| PasswordHash.TakePrinted | crypto/hashing.go:127-148 | a printed parameter sets its own field and no other |
| PasswordHash.ParamsInAnyOrder | crypto/hashing.go:127-148 | any order of the three parameters gives the same values |
| PasswordHash.ParsePermuted | crypto/hashing.go:111-163 | a whole hash printed with its parameters in any order parses to the same fields |
| PasswordHash.ParsePrinted | crypto/hashing.go:64-77 | parsing recovers every field of every printed hash: any m and t from 1 to 2^32-1, p from 1 to 255, any salt and key |
| PasswordHash.ParsedIsPrintable | crypto/hashing.go:127-152 | whatever parses has all its parameters in the ranges that print |
| PasswordHash.VerifyPrinted | crypto/hashing.go:88-170 | verification against any printed hash, of whatever parameters, salt and key length, is equality of its key with the one derived from the attempt by just these parameters |
| PasswordHash.VerifyDerived | crypto/hashing.go:88-170 | a hash printed from a key that was derived with any parameters accepts its password, and an attempt if and only if that derives the same key with them |
| PasswordHash.VerifyCalculated | crypto/hashing.go:88-170 | the result of verification against a calculated hash is whether the attempt derives the stored key under the stored salt |
| PasswordHash.RefusedExactly | crypto/hashing.go:111-163 | for any hash of six parts, which error is told, exactly: the version, a parameter that cannot be read, one that is missing, the salt, the key, in this order |
| PasswordHash.VersionSigned | crypto/hashing.go:119-125 | a version may have a sign, and is refused outside the range of int64 |
| PasswordHash.OtherVersionRefused | crypto/hashing.go:119-125 | a printed hash of any other version is refused |
| PasswordHash.ZeroRefused | crypto/hashing.go:150-152 | so is one that prints a zero for memory, time or threads |
| PasswordHash.NotAHash | crypto/hashing.go:88-113 | a string without "$" is no hash, one of another kind is unsupported, one that ends after the kind has the wrong format |
| PasswordHash.BlankNumber | crypto/hashing.go:127-148 | blanks before a number are skipped, but for line ends |
| Strings.SplitJoin | flag/stringarr.go:59-61 | splitting undoes joining when no part has the separator |
| Strings.JoinSplit | env/env.go:44-50 | joining undoes splitting, and no piece has the separator |
| Strings.TrimAround | flag/intarr.go:18 | trimming removes just the white space on both sides |
| Decimal.ValueDigits | flag/intarr.go:39-45 | reading a printed natural number gives it back |
| Decimal.DigitsSnoc | flag/intarr.go:42 | the numeral of 10 * n + d is that of n followed by the digit d |
| Decimal.ItoaCanonical | flag/intarr.go:42 | a numeral has a sign only for a negative number, and no leading zero |
| Decimal.AtoiItoa | flag/intarr.go:15-45 | Atoi undoes Itoa on all of int64 |
| Decimal.AtoiExactly | flag/intarr.go:20-33 | Atoi gives a number exactly for an optional sign and digits whose value it is, in the range of int64 |
| Base64.RoundTrip | http/cookies/cookie.go:225-227 | decoding undoes encoding of every byte string, with the standard and the URL-safe alphabet (sections 4 and 5 of RFC 4648) |
| Base64.EncodeChars | crypto/hashing.go:71-72 | an encoding has only the symbols of its alphabet and '=' |
| Base64.SymbolsOfTable | crypto/hashing.go:71-72 | its symbols are the capital letters, the small ones, the digits and the two of the alphabet, in this order (tables 1 and 2 of RFC 4648) |
| Base64.EncodedLength | crypto/hashing.go:71-72 | four characters for every three bytes or part of them |
| Base64.DecodedLength | crypto/hashing.go:154-162 | and only such strings decode |
| Base64.NewlinesIgnored | crypto/hashing.go:154-162 | line ends anywhere in an encoding make no difference |
| Base64.Rfc4648Vectors | http/cookies/cookie.go:169 | three of the test vectors of section 10 of RFC 4648 |
| Cookies.FullNamesDistinct | http/cookies/cookie.go:97-102 | different names stay different under a namespace |
| Cookies.NamespaceFirst | http/cookies/cookie.go:97-102 | split at its dots, a full name is the namespace followed by the pieces of the name |
| Cookies.NamespacesApart | http/cookies/cookie.go:97-102 | full names of namespaces without a dot agree only when namespace and name do |
| Cookies.GetCookie | http/cookies/cookie.go:232-247 | the first pair with that name decides, a value that does not decode counts as not found |
| Cookies.PairMatches | http/cookies/cookie.go:236-239 | for any key: the prefix test matches the pair of that name, or one whose value starts with what follows the first "=" of the key |
| Cookies.CookieRoundTrip | http/cookies/cookie.go:168-247 | for every list of server cookies whose full names have no "=", ";" or space, and every name whose key is not padded: a lookup under the full name returns exactly the data of the first cookie of that name, and nothing if and only if there is none |
| Cookies.LookupRightExactly | http/cookies/cookie.go:232-247 | of all keys whatever, a lookup is right for every header if and only if the key is not padded |
| Cookies.PaddedKeyWitness | http/cookies/cookie.go:236-245 | a padded key and a header for which the code finds data of no cookie |
| Base64.PadsAtEnd | http/cookies/cookie.go:169 | "=" is found only in the last two places of an encoding |
| ArrayConfig.IntArr.Set | flag/intarr.go:15-36 | appends the numbers before the first bad piece, blank pieces skipped, and tells whether there was a bad one |
| ArrayConfig.SetSpaced | flag/intarr.go:17-26 | numerals with any white space around them and any blank pieces between set exactly their numbers |
| ArrayConfig.IntArr.String | flag/intarr.go:39-45 | the numerals joined by commas |
| ArrayConfig.GetAsIntArr | env/env.go:76-85 | the parseable pieces of the variable, or of the fallback when it is empty |
| ArrayConfig.PieceCounts | env/env.go:79-82 | a piece counts if and only if it is a number, whatever the others are |
| ArrayConfig.IntArrField.ConfigureFlag | app/config_field.go:317-325 | the default becomes what the environment gives, with the printed default as fallback; the flag starts empty |
| ArrayConfig.IntArrField.SetFlagValue | app/config_field.go:327-357 | the flag's list when not empty, else the default |
| ArrayConfig.IntArrField.Resolve | app/config.go:59-86 | precedence: all occurrences of the flag concatenated if not empty, else the numbers of a non-empty variable, else exactly the default; an error exactly when an occurrence is bad |
| ArrayConfig.OccurrencesInOrder | flag/intarr.go:15-36 | the values of a flag come in the order of its occurrences, and one bad occurrence fails them all |
| ArrayConfig.StringArr.Set | flag/stringarr.go:43-56 | appends the value, or its trimmed non-blank pieces |
| ArrayConfig.SpaceIgnored | flag/stringarr.go:45-50 | of pieces with any white space around them, and blank ones between, exactly the trimmed pieces are appended |
| ArrayConfig.StringSetPrintedExactly | flag/stringarr.go:43-61 | setting the printed form of a list without commas gives the list back if and only if it has one element, or all are non-blank without white space around them |
| ArrayConfig.IntDefaultSurvives | app/config_field.go:94-97 | every int-array default, the empty one too, survives printing and reading |
| ArrayConfig.SetPrinted | flag/intarr.go:15-45 | setting a flag to the printed form of a non-empty list appends exactly that list |
| ArrayConfig.StringDefaultSurvivesExactly | app/config_field.go:155-158 | a string-array default survives if and only if it is not empty and no element has a comma |
| Endpoints.VerifyJwt | security/endpoint_profile.go:406-435 | the first key that accepts the token decides; the two errors |
| Endpoints.EvaluateUserClaims | security/endpoint_profile.go:339-375 | authorized exactly as declared, and for each refusal exactly when it is given |
| Endpoints.RefusalTable | security/endpoint_profile.go:339-375 | the answer is the one of a table: administrators first, public endpoints ask no more, then account types, then the state of the email address |
| Endpoints.EvaluateServiceClaims | security/endpoint_profile.go:378-403 | authorized exactly when services are allowed and the non-empty scopes contain "*" or are a subset of the caller's |
| Endpoints.ServiceTable | security/endpoint_profile.go:378-403 | what the declared specification means for a service, scope by scope |
| Endpoints.Evaluate | security/endpoint_profile.go:301-336 | authorized if and only if the declared specification says so; the claims returned; the error of every refusal |
| Endpoints.FirstAcceptedExactly | security/endpoint_profile.go:424-430 | there is a result exactly when some key accepts, and it is that of the first which does |
| Endpoints.KeySetDecides | security/endpoint_profile.go:424-430 | when claims do not depend on the key, a larger key set keeps the result of a smaller one |
| Endpoints.OrderOfKeysIrrelevant | security/endpoint_profile.go:301-336 | then claims and decision are the same for every permutation of the keys |
| Endpoints.MonotoneExactly | security/endpoint_profile.go:317-324 | acceptance is monotone in the key set if and only if the profile is not public |
| Endpoints.AgreesWithCacheExactly | jwtkeys/cache.go:226-249 | `Cache.Verify`, and the verification of an endpoint with the keys of that cache, accept the same tokens with the same claims for all verifiers, tokens and keys if and only if the profile does not allow expired tokens |
| Registry.EndpointRegistry.Register | security/endpoint_profile.go:120-294 | the registration functions: for each method in turn, the key's profile, or the default one, with the operation applied and the method stored |
| Registry.EndpointRegistry.GetEndpointProfileForMethod | security/endpoint_profile.go:107-114 | the profile of method and endpoint, else of the endpoint, else the default |
| Registry.KeysDiffer | security/endpoint_profile.go:120-135 | two registrations for good methods share a key exactly when endpoint and method are the same |
| Registry.KeysClashExactly | security/endpoint_profile.go:120-135 | a method shares a key with some method-less registration if and only if it starts with "/" |
| Registry.KeptApartExactly | security/endpoint_profile.go:107-141 | registrations for an upper-case method are seen by no lookup with another good method, for all registries, operations and endpoints, if and only if the method does not start with "/" and has no space followed by "/" |
| Registry.LookupExactly | security/endpoint_profile.go:107-141 | after any sequence of calls a lookup is the outcome of the operations that named the endpoint and method, in order, or of the method-less ones when there are none |
| Registry.OutcomeDeclared | security/endpoint_profile.go:148-294 | for all operations in any order: what comes before the last SetEndpointProfile is forgotten, and the outcome is its profile with what the operations after it declare |
| Registry.LookupDeclared | security/endpoint_profile.go:107-294 | so a lookup after any calls is what the last SetEndpointProfile that named it, else the default profile, and the operations after it declare |
| Registry.SetIsFound | security/endpoint_profile.go:150-155 | a profile just set is what the lookup finds, whatever was registered before |
| Registry.CallNames | security/endpoint_profile.go:120-135 | a call names exactly the upper-case forms of its methods, or the method-less registration when it has none |
| Registry.UpperExactly | security/endpoint_profile.go:128 | the upper-case form changes just the 26 letters |
| Registry.OperationsDeclare | security/endpoint_profile.go:159-294 | operations other than SetEndpointProfile amount to: each flag set if its operation occurs, the last scopes win |
| Registry.ScopesMean | security/endpoint_profile.go:250-266 | after ServiceClientEndpoint a service is authorized exactly when no scopes were given, or "*", or it holds all of them |
| Registry.OrderOfFlagsIrrelevant | security/endpoint_profile.go:159-294 | so flag setters commute and are idempotent |
| Registry.ServicesHaveScopes | security/endpoint_profile.go:250-294 | without SetEndpointProfile every lookup that allows services has a non-empty scope list, that of the last registration of scopes |
| Registry.ClosedToServices | security/endpoint_profile.go:250-294 | an endpoint that was given neither scopes nor a whole profile is open to no service |

## Left out

- Servers, interceptors, middlewares, CORS, databases and service clients: wiring over libraries that are not part of this repository.
- Cryptography: Argon2id, HMAC-SHA1, RSA and AES-GCM are not part of this model, nor is `encryption/keyring.go`, a map lookup.
- JSON and reflection in `jwt/`: reading and writing claims are not inverse to each other there, so no round trip is claimed.
- Byte framing of tar, zip, gzip and bzip2; file modes, times and I/O errors in the middle of a file; an archive written inside its own source tree.
- RoundTrip.TarRoundTrip: does not cover a destination that is reached through a symbolic link, nor a source that drops a name of its directory, such as "x/..", onto a destination that ends in ".." or is "/", where entries of one archive land in different places.
- RoundTrip.ZipRoundTrip: does not cover the same destinations and sources, nor a source such as ".." onto a destination that ends in a name, whose archives have no entry for the source itself and are refused file by file.
- Containment.LinkLeadsOutside: shows that meeting a link can lead outside, not which archives that meet links stay inside.
- Floating-point rounding of token counts: buckets hold exact reals.
- The waiting time of golang.org/x/time/rate is rounded down to whole nanoseconds, so that it also grants a token that is less than a nanosecond of refill short.
- Initializers other than the shipped two are assumed to leave the key cache and the limiter alone.
- White space and case beyond ASCII in `strings.TrimSpace` and `strings.ToUpper`.
- The rounding of `Duration.Seconds` itself: long steps with a fraction, such as 2^24 s + 999999999 ns, may come out one second longer, and the model allows both results.
- Durations over the range of int64 nanoseconds, and TOTP times before the epoch in the statement about counters (the method itself wraps them as the code does).
- A panic in the first, synchronous refresh ends the process in the code; the transition system has panics everywhere in tick, but between receiving keys and storing them, and in fetches.
- Background routines other than the shipped two are assumed to call Done once, when they end.
- Liveness that depends on the scheduler or on the choice of a select, such as how soon the refresh loop notices cancellation.
- The nine registration functions are one method with the operation as a parameter.
- Cookie attributes, `ClearCookie` and the namespace setter; only name and value matter for a lookup.
- Float and bool array flags, scalar configuration, `math`, `str`, `cache`, `s2s`, `hibp`, the logger and `svcreg`: short members that would add little.
- RateLimit.Limiter.Evict: the sweep is one step; other calls wait for the mutex.
- BackupCodes.GenerateBackupCodes: requires that the loop ends at all, because the code loops forever otherwise; `LoopEndsExactly` says when it does.
- ArrayConfig.StringArr.Set: only the default of a string-array field is followed through `configureFlag`, not the precedence of its flag, which is as for int arrays.
