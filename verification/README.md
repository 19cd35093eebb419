# Verified model of the Infisical key storage provider

A Windows key storage provider that forwards signing to a remote service has, around its network calls,
four pieces of real logic. This project models each of them in Dafny, with the branches, constants and
error cases of the Go and C code, and proves what the rest of the system relies on. `dafny verify
dfyconfig.toml` checks everything.

**Command capture** (`Strings`, `Redaction`, `CredentialWords`, `CommandLine`, `Utf8`, `Capture`). The process command line
is redacted, joined and cut to 2048 bytes before it is sent. The redaction loop, which carries one bit from
argument to argument, is proved to compute a function of adjacent arguments. That function's kernel is
determined exactly: two command lines are redacted alike if and only if they differ only in credential
text. What counts as a credential is written out, ten words and three suffixes letter by letter, and every
argument of every command line is proved to come out as those words say. Redaction is idempotent, the printer is undone by a quote-aware tokenizer exactly on lists without
double quotes, and the byte-wise cut is a cut between characters.

**Codecs** (`Bytes`, `Der`, `DerOctets`, `Ecdsa`, `PublicKeys`). DER signatures become fixed-width `r||s`, public keys
become CNG blobs. The DER reader that the source takes from Go's library is written out and proved to accept
exactly the encodings of (r, s), with the further sequence elements that library tolerates; tags and lengths are
pinned octet by octet. Blobs are read back by a decoder for the format.

**Sessions** (`Errors`, `Config`, `SessionTypes`, `Session`, `SessionRuns`, `FailureCacheOps`,
`LoginRuns`, `KeyRace`, `KeyOrder`, `Approvals`). `Session.Session` has the source's fields and methods; each method is
proved equal to a function of the state it starts in and of what the clock and the server answer. The other
modules reason about those functions over whole runs: calls that pass through one session's lock, with
everything outside it arbitrary; operations of any number of threads on the process-wide failure cache;
sequential logins of many sessions; interleaved `PublicKey` calls that drop the lock while fetching; and
sequences of sign calls that may open approval requests.

**Handles and buffers** (`Modulo`, `Handles`, `Buffers`, `HostSignatures`, `HostStatus`). The handle registry agrees with its abstract history, and the
size a sizing call announces is the size the second call produces. A granted signature reaches the host as the
server's octets or, for ECDSA, as the r and s they hold; a refused one as the refusal's own status.

Clock readings and server answers are parameters of the operations. SHA-256, base64, certificate and URL
parsing, `time.ParseDuration` and RFC 3339 formatting are arbitrary functions. Times and durations are in
nanoseconds; a wrapped 64-bit product is modelled where the source can produce one.

## What turned out not to hold in general

- The documentation (README.md:256) says values following credential flags are redacted. The code leaves such a
  value alone when it is itself spelled like a credential argument, and leaves the value in `-pass:value` alone when it
  contains `=` or ends in a secret suffix. `FlagValueHiddenIff`, `ColonValueHiddenIff` and
  `CredentialsThatSurvive` give the exact conditions and examples.
- The check that limits a signing duration to 30 days is made after a multiplication that can wrap around:
  `213504d` is accepted and taken for 25 minutes, and so are some negative counts. `DayCountAccepted` gives the
  exact set of accepted counts, `WrappedDayCountsAccepted` three that should not be in it.
- The margin is meant to drop a token before it expires (internal/infisical/session.go:18-20). A cached token
  can outlive the server's exactly when the server grants less than a minute. `TokenDroppedInTimeIff`,
  `ReturnedTokenIsLive` and, with a run in which it happens, `ShortTokenReturnedExpired`.
- The public-key cache does not always hold the key served last: `SlowFetchOverwritesNewer` is a run in which a
  slow fetch overwrites a newer one. Among the fetches stored, the one served last wrote the entry exactly when
  none was both served and stored between the last storing thread's serve and its store
  (`CacheHoldsLastServedIff`); fetches of one ID that do not overlap always leave the key served last
  (`SeparateFetchesKeepLastServed`).
- A handle is issued twice once a run makes more registrations than a handle word counts, and only then.
  `HandleReissuedIff`.

## Model

| member | source | states |
|---|---|---|
| Redaction.RedactCommandArgs | internal/infisical/signing_context.go:66-103 | The loop's carried bit is set exactly when the previous argument is a credential flag without inline value; the result is the pointwise redaction of adjacent arguments |
| Redaction.RedactionKernel | internal/infisical/signing_context.go:52-103 | Two argument lists are redacted alike if and only if they have equal length and differ only in credential text: after the first `=` of the same secret key, as the value of a credential flag, or after the first colon of the same credential flag |
| Redaction.RedactArgKernel | internal/infisical/signing_context.go:69-101 | The same for one argument in or out of value position |
| Redaction.RedactionIsIdempotent | internal/infisical/signing_context.go:66-103 | A second pass changes nothing, for every argument list |
| Redaction.RedactArgStable | internal/infisical/signing_context.go:69-101 | Rewriting an argument keeps whether the next one is its value |
| Redaction.RedactionShape | internal/infisical/signing_context.go:80-98 | Every output is the argument, `***`, or the argument up to and including an `=` or `:` followed by `***` |
| Redaction.FlagValueHiddenIff | internal/infisical/signing_context.go:69-84 | At any position of a command line, the value of a credential flag becomes `***` exactly when it is not itself a credential argument |
| Redaction.ColonValueHiddenIff | internal/infisical/signing_context.go:95-100 | The value in `flag:value` becomes `***` exactly when it contains no `=` and does not end in a secret suffix |
| Redaction.CredentialsThatSurvive | internal/infisical/signing_context.go:66-103 | Three concrete command lines whose credential is left in the clear |
| Redaction.DocumentedFlagsTakeValue | internal/infisical/signing_context.go:20-84 | At any position, a flag named in the documentation, with any marker and in any case, is kept and the next argument hidden exactly when it is not itself a credential argument |
| Redaction.PropertyValueHidden | internal/infisical/signing_context.go:59-63 | A property whose last name part is a credential word is redacted after its `=`, whatever owns it and wherever it stands |
| CredentialWords.FlagIff | internal/infisical/signing_context.go:20-55 | A token names a credential flag exactly when it is `--`, `-` or `/` followed by one of ten words or a name ending in one of three, letter for letter, small, capital, or one of the two other characters with that lower case |
| CredentialWords.TakesNextIff | internal/infisical/signing_context.go:69-84 | An argument makes the next one its value exactly when it has no `=` and is such a flag |
| CredentialWords.AssignmentIff | internal/infisical/signing_context.go:44-84 | `key=value` is a credential exactly when the last `:`, `.` or `_` part of the key, after any marker, is such a name; `password=x` without marker included |
| CredentialWords.RedactedExactly | internal/infisical/signing_context.go:66-103 | Every argument of every command line: flags stay, assignments keep their key, values after a flag become `***`, colon forms keep the flag, and everything else is kept |
| CredentialWords.OrdinaryArgument | internal/infisical/signing_context.go:66-103 | An argument of none of the credential forms is hidden after a credential flag and kept everywhere else |
| CredentialWords.MixedCaseFlag | internal/infisical/signing_context_test.go:112 | `tool -PassIn s3cret` becomes `tool -PassIn ***` |
| CredentialWords.OrdinaryCommandLine | internal/infisical/signing_context.go:66-103 | signtool's `/fd SHA256 /f cert` is kept as it is |
| CommandLine.JoinCommandArgs | internal/infisical/signing_context.go:105-118 | The loop renders each argument, quoting empty ones and those with blanks, and joins with spaces |
| CommandLine.TokenizingUndoesJoining | internal/infisical/signing_context.go:105-118 | Tokenizing the joined line returns the list if and only if no argument contains a double quote |
| CommandLine.JoiningIsInjective | internal/infisical/signing_context.go:105-118 | Lists without double quotes with equal lines are equal |
| CommandLine.ArgumentInLine | internal/infisical/signing_context.go:105-119 | At any place of the line, an argument with a space or a tab is quoted, an empty one is two quotes, any other stands bare, and one space separates it from its neighbours |
| Capture.TruncateCommand | internal/infisical/signing_context.go:120-129 | The loop finds the last character start at or before byte 2048 |
| Capture.CharStart | internal/infisical/signing_context.go:124-127 | No byte after the found position up to the limit starts a character |
| Capture.TruncationCutsCharacters | internal/infisical/signing_context.go:120-129 | On UTF-8 the byte cut is the encoding of the longest character prefix that fits, for every limit |
| Capture.TruncationOfText | internal/infisical/signing_context.go:16-129 | At 2048 bytes: longest prefix of whole characters, at least 2045 bytes when anything was cut, and a fixed point |
| Capture.CaptureCommand | internal/infisical/signing_context.go:144-157 | The pipeline redacts, then joins, then truncates |
| Capture.CaptureHidesCredentials | internal/infisical/signing_context.go:150 | Command lines that differ only in credentials give the same captured bytes, truncated or not |
| Capture.CaptureShowsTheRest | internal/infisical/signing_context.go:150 | Without quotes and truncation, captures are equal if and only if the command lines differ only in credentials |
| Capture.CapturedIsBeginning | internal/infisical/signing_context.go:121-157 | At most 2048 bytes are captured: the redacted line's encoding, or the longest beginning of it that fits and ends between two characters |
| Utf8.EncodingIsInjective | internal/infisical/signing_context.go:125 | The encoding the truncation works on determines the text |
| Bytes.PaddedMinimal | internal/cng/pubkey.go:68-75 | Left-padding a number's minimal octets to a width gives its fixed-width octets |
| Bytes.MinimalLength | internal/cng/pubkey.go:23-31 | A number takes its bit length rounded up to whole octets |
| Der.TwosComplementCanonical | internal/cng/ecdsa.go:20 | Every minimally encoded integer is the encoding of the number it reads as |
| Der.TlvExact | internal/cng/ecdsa.go:20 | An element is read exactly when the bytes are its encoding, short or long form |
| Der.SignatureExact | internal/cng/ecdsa.go:18-23 | (r, s) is read with a rest exactly when the bytes are a DER sequence of r, s and any further elements, followed by that rest |
| DerOctets.TagsRead | internal/cng/ecdsa.go:20 | Whatever is read begins with tag 48, and each number with tag 2 |
| DerOctets.IntegerOctets | internal/cng/ecdsa.go:20 | `2, length, content` is read exactly when the content is as short as it can be, as the two's-complement number it denotes, and leaves the rest |
| DerOctets.SignatureOctetsRead | internal/cng/ecdsa.go:18-23 | `48, n, 2, .., 2, ..`, with `0x81` before n from 128 on, is read as the two numbers and leaves the rest |
| Ecdsa.ECDSADERToRaw | internal/cng/ecdsa.go:18-42 | Filling the two halves of the buffer at computed offsets gives r and s in fixed width, or the first applicable error |
| Ecdsa.RawOfEncoding | internal/cng/ecdsa.go:18-42 | For every encoded (r, s): trailing bytes, non-positive and too wide numbers are refused, everything else gives 2*size bytes whose halves read back as r and s |
| Ecdsa.RawFormExact | internal/cng/ecdsa.go:18-42 | The conversion yields `raw` if and only if the input is a DER signature of the (r, s) that `raw` holds |
| Ecdsa.RawDeterminesSignature | internal/cng/ecdsa.go:38-41 | For one curve, equal outputs come from equal (r, s) |
| Ecdsa.CurveSignaturesConvert | internal/cng/ecdsa.go:31-41 | Every r, s of the coordinate size has an encoding that converts, on each of the three curves |
| DerOctets.SignatureOctetsConvert | internal/cng/ecdsa.go:18-42 | Those octets convert exactly when both numbers are positive and fit 32, 48 or 66 octets; the halves of the result denote them |
| PublicKeys.RSAPublicBlob | internal/cng/pubkey.go:21-37 | Header words written in place, then exponent and modulus |
| PublicKeys.RsaBlobReadsBack | internal/cng/pubkey.go:21-37 | The blob reads back as the key and its bit length, with cbModulus = ceil(bits/8), exactly when the numbers are not negative and the bit length fits a ULONG |
| PublicKeys.RsaBlobOctets | internal/cng/pubkey.go:21-37 | The blob begins with the octets RSA1; bit length and the two octet counts follow as little-endian words, then two zero words, exponent and modulus |
| PublicKeys.LeftPad | internal/cng/pubkey.go:68-75 | Short input is padded on the left, over-long input returned unchanged |
| PublicKeys.ECCPublicBlob | internal/cng/pubkey.go:42-66 | Header words and two padded coordinates, or an error for other curves |
| PublicKeys.EccBlobReadsBack | internal/cng/pubkey.go:42-66 | A blob exists exactly for the three curves, and reads back as the same key exactly when both coordinates fit; it then has 8 + 2*cbKey bytes |
| PublicKeys.EccBlobOctets | internal/cng/pubkey.go:42-66 | The blob begins with ECS1, ECS3 or ECS5 and 32, 48 or 66 as a little-endian word; coordinates that fit follow in that width |
| Errors.StatusIsOfRootCause | cmd/ksp/provider_windows.go:175-200 | The status of an error chain of any depth is that of its root cause: 0x80090010 for 401 and 403, 0x80090016 for 404, 0x80090027 for 400 and a bad handle, else 0x80090020 |
| Errors.WrappingKeepsStatus | internal/infisical/errors.go:37-60 | Wrapping at any depth changes neither the status nor the API error found, whatever RequestErr holds |
| Config.Config.SetDefaults | internal/infisical/config.go:73-97 | Fills zero and empty fields in place and infers the auth method |
| Config.Config.ApplyEnvOverrides | internal/infisical/config.go:99-114 | Non-empty variables replace fields; a token selects token auth |
| Config.DayCountAccepted | internal/infisical/session.go:282-291 | For every count N, "Nd" is the 64-bit product of N days; the checks accept exactly the N whose product modulo 2^64 is between a minute and 30 days; it does not wrap exactly up to 106751 days either way, where 1 to 30 are accepted |
| Config.WrappedDayCountsAccepted | internal/infisical/config.go:135-143 | 213504 days, minus 213503 days and 2^48 + 1 days pass the checks and mean 25 minutes, 23 hours and one day |
| Config.LoadsIff | internal/infisical/config.go:73-148 | A configuration loads exactly when URL, auth method, signing count and duration are in range, the environment's values before the file's; and which values it then has |
| Session.AuthFailures.Cached | internal/infisical/session.go:37-47 | Returns an unexpired failure, drops an expired one |
| Session.Session.EnsureToken | internal/infisical/session.go:95-125 | New token, expiry, failure cache and result for every branch |
| Session.CacheLifetime | internal/infisical/session.go:129-139 | Ceiling, margin and minimum applied in order, with 64-bit wrap-around |
| Session.Session.Signers | internal/infisical/session.go:142-160 | Cached list, or a fetched one with its new expiry, or the error with the old list kept |
| Session.Session.FindSigner | internal/infisical/session.go:163-174 | The first entry with that name or ID, an error when there is none |
| Session.Session.BeginPublicKey | internal/infisical/session.go:177-187 | The section before the fetch: a live cached key, or a token |
| Session.Session.StorePublicKey | internal/infisical/session.go:198-204 | The section after the fetch stores the key with its expiry |
| Session.Session.Sign | internal/infisical/session.go:208-227 | Result, requests sent and new state |
| Session.Session.AutoRequestOnDenial | internal/infisical/session.go:229-250 | Which error a denial becomes, and the request sent |
| Session.Session.RequestApprovalIfConfigured | internal/infisical/session.go:252-280 | No request without an approval block; otherwise the parameters filled field by field |
| SessionRuns.TokenDroppedInTimeIff | internal/infisical/session.go:127-139 | For every ceiling, the token is dropped before it expires for all delays up to the client timeout if and only if the server grants at least a minute |
| SessionRuns.CachedTokenOrigin | internal/infisical/session.go:103-124 | Over any run, the cached token and its expiry are those of the last login; there is none exactly as long as no login has succeeded |
| SessionRuns.TokenRequestAnswer | internal/infisical/session.go:95-125 | Every token request of a run: the configured token under token auth; else the last login's token while it lasts, a recent failure, no login without credentials, and else the login's own token or error |
| SessionRuns.ReturnedTokenIsLive | internal/infisical/session.go:95-125 | Over any run, a returned token is non-empty, was issued by a login of that run and has not expired, given a lifetime of a minute and a login within the client timeout |
| SessionRuns.ShortTokenReturnedExpired | internal/infisical/session.go:95-139 | For every lifetime under a minute and every ceiling there is a run, with the login answered within the client timeout, whose next request returns the expired token from the cache |
| SessionRuns.FoundSignerIsFresh | internal/infisical/session.go:142-174 | Over any run, FindSigner gives the first signer with that name or that ID in a list served within SignerTTL plus that fetch's duration, and fails only when none has it or no token or list could be had |
| SessionRuns.CachedListIsLastFetch | internal/infisical/session.go:142-160 | Over any run, the cached list and its expiry are those of the last fetch that succeeded, whatever failed since |
| SessionRuns.SignersAnswer | internal/infisical/session.go:142-160 | Every request for signers in a run: the last fetched list while it lasts, else the token request's error, or the server's list or error |
| FailureCacheOps.RefusedIffRecentFailure | internal/infisical/session.go:37-59 | In every interleaving of cache operations, a lookup is refused exactly when the last recorded and not cleared failure of the key is under 10 s old |
| FailureCacheOps.TokenRequestOps | internal/infisical/session.go:106-123 | A token request looks its key up before any login, is refused with the cached failure, and afterwards records a failure or clears the key |
| LoginRuns.FailedLoginHoldsOff | internal/infisical/session.go:95-125 | After a recorded failure, any later login for that key, by any session, starts at least 10 s later |
| KeyRace.InterleavingKeepsInv | internal/infisical/session.go:177-205 | Every interleaving keeps: one lock holder, fetched keys served for their ID, entries stored for their own ID, returned keys justified |
| KeyRace.LockExcludes | internal/infisical/session.go:178-203 | At most one thread is inside a locked section |
| KeyRace.ReturnedKeyIsFresh | internal/infisical/session.go:177-205 | Every returned key was served for its ID after the check, or less than CertTTL plus the storing thread's serve-to-store delay before it |
| KeyRace.SlowFetchOverwritesNewer | internal/infisical/session.go:189-203 | An interleaving that leaves an older key in the cache; KeyOrder.CacheHoldsLastServedIff says exactly when |
| KeyOrder.EntryIsLastStore | internal/infisical/session.go:198-203 | In every interleaving, an ID has an entry exactly when it was stored, and the entry is that of its last store |
| KeyOrder.CheckHitsIff | internal/infisical/session.go:178-182 | In every interleaving, a cache check hits exactly when the ID's last store is less than CertTTL old, and returns the key stored then |
| KeyOrder.CacheHoldsLastServedIff | internal/infisical/session.go:189-203 | In every interleaving, the fetch served last wrote the entry exactly when no fetch was both served and stored between the last storing thread's serve and store; the cache holds the entry of the fetch served last unless such a fetch brought a different one |
| KeyOrder.SeparateFetchesKeepLastServed | internal/infisical/session.go:177-205 | If fetches of an ID never overlap, the cache holds the last key served for it, unless the thread it was served to still has to store it |
| Approvals.OneApprovalPerDenial | internal/infisical/session.go:208-280 | A call sends nothing without a token, else one sign request with its digest, signer and situation; then one approval request exactly when denied with 403 ApprovalRequired and an approval block is configured, with the same token, the hex SHA-256 of its own digest as data hash and the call's command, application, host and user |
| Approvals.SignSucceedsIff | internal/infisical/session.go:208-227 | A call returns a signature exactly when it had a token, the server accepted and the reply decodes to it; it then sent one sign request with that token and nothing else |
| Approvals.DenialStaysInChain | internal/infisical/session.go:223-249 | A denied call never succeeds; the denial stays in the chain and decides the status; the error carries the opened request's ID and status, or why none could be opened |
| Approvals.OneApprovalPerDenialOverRuns | internal/infisical/session.go:208-280 | A run opens as many requests as it has such denials |
| Approvals.EveryApprovalIsPinned | internal/infisical/session.go:240-264 | Every request of a run carries the hash of the digest, and the situation, of a call that was denied |
| Approvals.SameHashSameDigest | internal/infisical/session.go:240-264 | Two requests of a run with the same data hash come from denied calls whose digests hash alike |
| Approvals.ApprovalWindow | internal/infisical/session.go:262-277 | With a checked configuration the request is always sent; it asks for the configured count, and its window in whole seconds is the duration rounded down or up, within 60 s and 30 days, at every time |
| Handles.HandleTable.RegisterHandle | cmd/ksp/provider_windows.go:50-57 | Issues the counter's value, which wraps at the word size |
| Handles.HandleTable.OpenKey | cmd/ksp/provider_windows.go:88-113 | Registers a key state with type and curve from the public key, or returns the first error |
| Handles.LookupIsResolve | cmd/ksp/provider_windows.go:50-69 | In every run, wrapped or not, the map agrees with the abstract history for every handle, and the counter with the number of registrations |
| Handles.RegisteredUntilFreed | cmd/ksp/provider_windows.go:59-69 | In a history, a handle means its object until freed and nothing afterwards, for as long as the counter has not come round |
| Handles.OpenedHandleResolves | cmd/ksp/provider_windows.go:71-121 | In any run with fewer further registrations than the word counts, an opened handle resolves to exactly what was opened until it is itself freed, whatever happens to other handles |
| Handles.HandlesOfTwoOpens | cmd/ksp/provider_windows.go:50-57 | Two opens of any run get different handles when fewer registrations than a word lie between them, and the same one when exactly a word does |
| Handles.HandleReissuedIff | cmd/ksp/provider_windows.go:44-57 | A run issues some handle twice if and only if it makes more registrations than the handle word counts |
| Handles.LiveKeysConsistent | cmd/ksp/provider_windows.go:102-121 | Every key a handle resolves to has the type and curve size of its public key; a provider handle is no key handle |
| Handles.OpenedKeyIsProviders | cmd/ksp/provider_windows.go:71-121 | Over any run, a key opened through a provider works with that provider's session, the signer found and its public key until it is freed; through a freed provider nothing opens |
| Buffers.CopyOut | cmd/ksp/bridge_windows.c:18-30 | Writes the length as a DWORD, then all of the counted data or nothing, and leaves the rest of the buffer unchanged; nothing is said where memcpy gets a negative count |
| Buffers.CopyOutCompleteIff | cmd/ksp/bridge_windows.c:18-30 | A shorter buffer gives 0x80090028 and stays unchanged; one of the announced length is filled with all of the data exactly when the data is shorter than 2^31 bytes |
| Buffers.SignDigest | cmd/ksp/bridge_windows.go:94-127 | Padding and hash name from flags and digest length, then the signature or the mapped status |
| HostSignatures.RsaSignatureDelivered | cmd/ksp/bridge_windows.go:94-127 | PKCS #1 for flag 2, else PSS for flag 8, else no padding and a hash named by 32, 48 or 64 octets; with the algorithm so found, an RSA call fills the buffer with the server's octets or reports their length |
| HostSignatures.EcdsaSignatureDelivered | cmd/ksp/bridge_windows.go:94-127 | The same request for an ECDSA key writes two halves that read back as r and s of the server's DER signature, or nothing when it is not one |
| HostSignatures.FailedSignHash | cmd/ksp/bridge_windows.go:94-127 | A bad handle, a digest length that names no hash, or an error of the table or the server leaves the buffer alone and decides the status |
| HostSignatures.AnnouncedSize | cmd/ksp/bridge_windows.go:72-87 | The sizing call announces the modulus's length for RSA, and 64, 96 or 132 for the three curves |
| HostSignatures.RefusedExport | cmd/ksp/bridge_windows.c:59-72 | Another blob type is refused before the handle is looked at, and then a handle that is no key |
| Buffers.SignHash | cmd/ksp/bridge_windows.c:74-88 | The effect on the caller's memory of a sizing or signing call |
| Buffers.ExportKey | cmd/ksp/bridge_windows.c:59-72 | The effect of an export call |
| Buffers.SignatureHasAnnouncedSize | cmd/ksp/bridge_windows.go:76-87 | An ECDSA signature has exactly the announced size, an RSA one if the server's is modulus-long |
| Buffers.SizedSignCallSucceeds | cmd/ksp/bridge_windows.c:74-88 | On any key reached by a handle, a buffer of the announced size is never too small; success fills exactly that much |
| Buffers.SizedExportReadsBack | cmd/ksp/bridge_windows.c:59-72 | On any key reached by a handle, the two-call export fills in the whole blob exactly when it is shorter than 2^31 bytes, and the blob reads back as the key exactly when its numbers are in range |
| HostStatus.RefusedSignHashStatus | cmd/ksp/bridge_windows.go:120-124 | A SignHash whose sign request the server refuses returns the refusal's status, NTE_PERM for a missing approval, whatever became of the approval request, and leaves the buffer alone; without a token it returns that failure's status |
| HostStatus.GrantedSignHash | cmd/ksp/bridge_windows.go:94-127 | A SignHash whose sign request the server grants fills the buffer with the decoded reply for RSA, and with its r and s for ECDSA |
| Config.LoadedConfigIsUsable | internal/infisical/config.go:116-148 | Supporting fact for the approval window: a configuration that loads has a known auth method, the documented default cache lifetimes, environment values over file values, and a signing duration that parses to between 1 minute and 30 days |
| SessionRuns.CachedLifetimeValue | internal/infisical/session.go:129-139 | Supporting fact: for a positive ceiling the kept lifetime is max(30 s, min(lifetime, ceiling) - 30 s), for every reported lifetime from which the margin can be subtracted in 64 bits, negative ones included |
| SessionRuns.FailedRefreshKeepsList | internal/infisical/session.go:149-158 | Supporting fact for the last-fetch result: one call's failed refresh keeps list and expiry, a successful one replaces both |
| Bytes.BitLenIsLeast | internal/cng/pubkey.go:29 | Supporting fact for the RSA header: the bit length is the least number of bits that hold the number |
| Config.OtherDurations | internal/infisical/session.go:282-291 | Supporting fact: a duration that does not end in d is the library's to parse |
| Utf8.EncodedExamples | internal/infisical/signing_context.go:125 | Supporting fact: the examples of section 7 of RFC 3629 |

## Left out

- RedactCommandArgs: arguments are valid Unicode text; lone surrogates and bytes that are not UTF-8 are not modelled.
- FailedLoginHoldsOff: calls of different sessions do not overlap, because their locks do not order them; RefusedIffRecentFailure covers every interleaving of the cache operations themselves.
- ReturnedTokenIsLive: the server's lifetime is taken after its conversion to nanoseconds, so a lifetime of more than 292 years that wraps is not followed.
- SizedSignCallSucceeds: for RSA it needs the server to return a signature as long as the modulus, since the provider passes it on unchecked.
- HTTP, TLS, JSON and the REST client: the server is an arbitrary answer, except that a login that succeeds has a non-empty token.
- The cgo bridge's memory handling and UTF-16 conversion, the CNG function table and its unsupported entries.
- The signing-algorithm table, key properties and advice texts: finite tables.
- Error messages: an error keeps its kind, status, code and chain, not its full text.
- Log files, the executable's hash, host and user names, reading the configuration file.
