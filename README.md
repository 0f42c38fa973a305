# Identity-verification proof of concept, modelled in Dafny

This project models the decision logic of a small identity-document verification
demo (`mixoni/wasm-poc`). The demo has two halves:

- **The browser client** (Angular). It shows the camera. A per-frame stability
  counter decides when to capture the front and then the back of a document
  automatically. An in-browser recognition engine (BlinkID) can read the
  document. Its loosely shaped result is normalised into a verification record,
  and the back-side scan accepts or rejects the document.
- **The server** (ASP.NET minimal API). It issues signed, short-lived upload URLs
  and checks them on upload with a constant-time comparison. It returns a mock
  verification result derived from the image size. It also keeps a capped
  in-memory audit log.

Modules, one concept each:

| file | module | models |
|---|---|---|
| `auto_capture.dfy` | `AutoCapture` | the stability counter, the debounce-then-commit auto-capture and the `front`/`back`/`done` steps of `AppComponent`, as the class `AppComponent` over pure specification functions |
| `js_text.dfy` | `JsText` | JavaScript `trim`, `toLowerCase`, `startsWith` and the `\s*`-separated phrase search the classifier's regular expression performs |
| `blinkid.dfy` | `BlinkId` | `val`, `docKind`, `mapResult`, the checks of `scanBack`, and the readiness life cycle of `BlinkIdSdkService` as a class |
| `audit.dfy` | `Audit` | `InMemoryAuditLog`, a class over a sequence |
| `verification_api.dfy` | `VerificationApi` | `CryptographicEquals`, `Sign`, the `/api/upload-url` and `/api/upload` handlers, the `/api/verify` mock, and `/api/audit` |
| `decimal.dfy`, `int_math.dfy`, `wrappers.dfy` | `Decimal`, `IntMath`, `Wrappers` | decimal text of integers, `Math.min`/`max`/`Clamp`, `Option`/`Result`/`Outcome` |

Representation choices:

- Browser events are explicit method calls: each animation frame is `Tick` and the
  350 ms debounce timer is `DebounceFire`. The per-frame verdict `sharpOk && fillOk`
  is a boolean input. A captured picture is an optional byte string, absent when
  the canvas or the encoded blob is missing.
- Debounce timers that are scheduled but have not fired are counted in a ghost
  field. This lets the invariant say that `autoCapturing` implies a pending timer.
- The engine's outcomes are parameters of the service methods: a call throws, or
  returns a handle or nothing. The engine's result is a JavaScript value (`Js`).
- Server time is counted in ticks of 100 ns since the Unix epoch. HMAC-SHA256 is a
  function parameter `hmac` from payload text to digest bytes.
- C#'s truncating `%`, the unchecked `(int)` cast and the bitwise `^` and `|` on
  character codes are written out (`CsRem`, `ToInt32`, `Xor`, `Or`).

## Model

| member | source | states |
|---|---|---|
| AutoCapture.StableStep | client/src/app/app.component.ts:419-423 | a good frame counts up by one and a bad frame down by one, capped at 15 and floored at 0; the counter stays within 0..15 |
| AutoCapture.RunStaysInRange | client/src/app/app.component.ts:418-423 | after any run of evaluated frames from a counter in range, 0 <= stableFrames <= STABLE_THRESHOLD + 5 |
| AutoCapture.RunOfGoodFrames | client/src/app/app.component.ts:419-420 | n good frames in a row take the counter to min(frames + n, 15) |
| AutoCapture.RunOfBadFrames | client/src/app/app.component.ts:421-422 | n bad frames in a row take the counter to max(frames - n, 0) |
| AutoCapture.RunAppend | client/src/app/app.component.ts:392-423 | running two stretches of frames is running the first and then the second |
| AutoCapture.ReadyFirstOnTenthGoodFrame | client/src/app/app.component.ts:419-425 | from 0, guideGood holds after n consecutive good frames iff n >= 10, so it first turns true on the tenth |
| AutoCapture.NineGoodThenOneBad | client/src/app/app.component.ts:419-423 | one bad frame after nine good ones leaves the counter at 8, not 0 |
| AutoCapture.OneBadFrameFromReady | client/src/app/app.component.ts:421-425 | from a ready counter, one bad frame keeps guideGood iff the counter was above 10 |
| AutoCapture.VerDisabled | client/src/app/app.component.ts:445-448 | disabled whenever uploading; otherwise enabled in SDK mode iff both files are present, in backend mode iff the front file is present |
| AutoCapture.AppComponent.constructor | client/src/app/app.component.ts:283-286 | the page starts in step front with no files, counter 0 and both flags false |
| AutoCapture.AppComponent.StartLoop | client/src/app/app.component.ts:389-442 | starting the loop requests frames and changes nothing else; the counter is not reset |
| AutoCapture.AppComponent.StopLoop | client/src/app/app.component.ts:385-388 | stopping clears guideGood and autoCapturing, keeps stableFrames, and keeps the pending timers |
| AutoCapture.AppComponent.Tick | client/src/app/app.component.ts:392-438 | with no video dimensions nothing changes; otherwise the counter takes one StableStep, guideGood holds iff the counter is >= 10, and an attempt starts (a timer is scheduled and autoCapturing is set) only when guideGood and no attempt is marked (autoCapturing false); the invariant holds |
| AutoCapture.AppComponent.CaptureFrame | client/src/app/app.component.ts:361-378 | in step front the snapshot becomes front.jpg and the step becomes back, with the back file untouched; in any other step it becomes back.jpg and the step becomes done, with the front file untouched; no snapshot changes nothing; the step never moves backwards |
| AutoCapture.AppComponent.DebounceFire | client/src/app/app.component.ts:430-437 | a frame is captured only if guideGood still holds; afterwards autoCapturing is false, stableFrames is 0 and guideGood is false whatever happened, so a timer firing right after StopLoop, with no tick between, captures nothing |
| AutoCapture.AppComponent.OnFrontFile | client/src/app/app.component.ts:323-330 | a chosen file becomes the front file and the step becomes back, even from done; no file changes nothing |
| AutoCapture.AppComponent.OnBackFile | client/src/app/app.component.ts:331-338 | a chosen file becomes the back file and the step becomes done; no file changes nothing |
| AutoCapture.AutoCaptureFrontScenario | client/src/app/app.component.ts:418-437 | on a fresh page, ten good frames followed by the debounce capture the picture as front.jpg and end in step back with no attempt pending |
| JsText.Trim | client/src/app/blinkid-sdk.service.ts:72-78 | `trim` returns a slice of the input with only whitespace cut from either end, and the result has no whitespace at either end |
| JsText.TrimIdempotent | client/src/app/blinkid-sdk.service.ts:72-78 | trimming twice gives what trimming once gives |
| JsText.ToLower | client/src/app/blinkid-sdk.service.ts:99 | lower-casing keeps the length; an ASCII capital becomes the small letter 32 code points above it, the capital C with caron (U+010C) becomes U+010D, and every other character is kept; a character turns into a different small ASCII letter iff it is an ASCII capital |
| JsText.SkipSpace | client/src/app/blinkid-sdk.service.ts:101 | `\s*` skips exactly the whitespace run and stops at the first other character or the end |
| BlinkId.PadStart2 | client/src/app/blinkid-sdk.service.ts:80 | `padStart(2, '0')` leaves texts of two or more characters alone and left-pads shorter ones with zeros to two |
| BlinkId.Render | client/src/app/blinkid-sdk.service.ts:72-82 | a string answers trimmed and a number as its decimal text; an object answers by its `value` string, else its `latin` string, else its `raw` string, else its `originalString` string, trimmed; a date object with none of `value`, `latin`, `raw`, `originalString` answers by its date; every answer but a date is trimmed |
| BlinkId.Val | client/src/app/blinkid-sdk.service.ts:69-86 | with no usable candidate the answer is "" |
| BlinkId.ValIsFirstUsable | client/src/app/blinkid-sdk.service.ts:69-86 | `val` skips null, undefined and unusable candidates and answers with the first usable one, whatever follows |
| BlinkId.ValStopsAtBlankString | client/src/app/blinkid-sdk.service.ts:70-72 | a blank string is not skipped: it ends the search with "" even when a later candidate has text |
| BlinkId.DateObjectText | client/src/app/blinkid-sdk.service.ts:79-81 | a {year, month, day} object is written Y-MM-DD, with month and day in exactly two digits and the year unpadded |
| BlinkId.PaddedTwoDigits | client/src/app/blinkid-sdk.service.ts:80 | a number below 100, padded, is its tens digit followed by its units digit |
| BlinkId.DocKindOf | client/src/app/blinkid-sdk.service.ts:88-109 | the kind is id iff the lower-cased type text holds an identity-card phrase; passport iff it does not, and the text contains "passport" or the MRZ code starts with P; otherwise other |
| BlinkId.IdCardTextBeatsPassportMrz | client/src/app/blinkid-sdk.service.ts:99-106 | a result typed "ID Card" is an id even when its MRZ code reads as a passport |
| BlinkId.MrzCodeMakesPassport | client/src/app/blinkid-sdk.service.ts:104-106 | with no type text, an MRZ document code starting with P gives passport |
| BlinkId.MapResult | client/src/app/blinkid-sdk.service.ts:112-144 | the country is the first usable of classInfo.issuer, issuer and nationality, absent when empty; first and last name are the first usable of latin, value, raw and the field itself; date of birth, expiry and document number are the first usable of their candidates in the source's order; the type is the type text when there is one, else "Passport" exactly when MRZ text or code is present; confidence is the engine's number or 0.9; the screenshot and glare flags are the result's truthiness; quality is good |
| BlinkId.OkType | client/src/app/blinkid-sdk.service.ts:172-175 | an id card passes iff ID is listed and a passport iff PASSPORT is listed; other passes iff the list is non-empty, so an empty list rejects every kind; the default list admits every kind |
| BlinkId.ErrorMessage | client/src/app/blinkid-sdk.service.ts:178-182 | every message is non-empty; an unsupported type gives "Unsupported document type (<type>). Allowed: " and the allow-list |
| BlinkId.DefaultAllowedMessage | client/src/app/blinkid-sdk.service.ts:178 | with the default list the rejection names both kinds in capitals, joined by " or ": "Allowed: ID or PASSPORT" |
| BlinkId.CheckBack | client/src/app/blinkid-sdk.service.ts:164-186 | accepted iff the kind is allowed and no screenshot is suspected; a disallowed kind fails as unsupported before the screenshot check, the error carrying the mapped type or, when there is none, the kind's label, and the allow-list; an empty list always fails; a missing type is labelled by the kind; a success is MapResult's record with only the type relabelled |
| BlinkId.BlinkIdSdkService.constructor | client/src/app/blinkid-sdk.service.ts:19-22 | a new service is not loaded and holds no engine objects |
| BlinkId.BlinkIdSdkService.IsReady | client/src/app/blinkid-sdk.service.ts:50 | ready only when loaded and the module, runner and recognizer all exist |
| BlinkId.BlinkIdSdkService.Init | client/src/app/blinkid-sdk.service.ts:24-48 | a no-op when loaded; an empty key fails and changes nothing; otherwise it succeeds iff all three engine calls return, and a failing step leaves what earlier steps stored and the service not loaded |
| BlinkId.BlinkIdSdkService.Dispose | client/src/app/blinkid-sdk.service.ts:52-58 | the runner and recognizer are dropped, the service is not loaded and not ready, and the module is kept |
| BlinkId.BlinkIdSdkService.ScanFront | client/src/app/blinkid-sdk.service.ts:147-155 | refused when not ready; otherwise it fails only when the engine throws |
| BlinkId.BlinkIdSdkService.ScanBack | client/src/app/blinkid-sdk.service.ts:157-187 | refused when not ready; a throwing engine fails; otherwise the answer is CheckBack's, so a success is never a suspected screenshot or a disallowed kind |
| BlinkId.BlinkIdSdkService.QuickCheckSide | client/src/app/blinkid-sdk.service.ts:189-199 | true when not ready; false when processing throws; otherwise the truthiness of the processing result |
| Audit.Retained | server/VerificationApi/Infra/Audit.cs:21-25 | the kept entries are the newest min(n + 1, 5000) of the old entries followed by the new one, with nothing removed below the cap |
| Audit.InMemoryAuditLog.Count | server/VerificationApi/Infra/Audit.cs:19 | the number of entries held; reading that many returns every entry, newest first |
| Audit.InMemoryAuditLog.Write | server/VerificationApi/Infra/Audit.cs:21-25 | the new contents are the old ones with the event enqueued and only the oldest entries dropped down to 5000; Count <= 5000; Read(1) is [evt] |
| Audit.InMemoryAuditLog.Read | server/VerificationApi/Infra/Audit.cs:27-30 | min(take, Count) entries (none for a negative take), newest first; it changes nothing |
| VerificationApi.XorZero | server/VerificationApi/Program.cs:233 | the XOR of two character codes is 0 iff they are equal |
| VerificationApi.CryptographicEquals | server/VerificationApi/Program.cs:229-235 | true iff the two strings are equal, with different lengths refused before the loop |
| VerificationApi.LowerHex | server/VerificationApi/Program.cs:226 | the digest is written as two lower-case hex digits per byte |
| VerificationApi.HexBytesOfLowerHex | server/VerificationApi/Program.cs:226 | reading the hex text back gives every byte of the digest |
| VerificationApi.Sign | server/VerificationApi/Program.cs:220-227 | the signature is the digest in lower-case hex, two characters per byte |
| VerificationApi.Payload | server/VerificationApi/Program.cs:176 | the signed text is the key, a colon, then the decimal expiry; the upload check signs the same text (line 200) |
| VerificationApi.SameSignatureSameDigest | server/VerificationApi/Program.cs:220-227 | two payloads have equal signatures iff their digests are equal |
| VerificationApi.ParseLong | server/VerificationApi/Program.cs:194 | a parsed value is within the 64-bit range |
| VerificationApi.ParseLongAcceptsLongText | server/VerificationApi/Program.cs:194 | white space, an optional sign, one or more digits and white space parse to their signed value when it fits 64 bits, and fail otherwise |
| VerificationApi.ParseLongReadsOnlyLongText | server/VerificationApi/Program.cs:194 | only such texts parse, and the value parsed is their signed value |
| VerificationApi.ParseLongOfIntToString | server/VerificationApi/Program.cs:178 | parsing the decimal text the URL carries gives back the 64-bit expiry |
| VerificationApi.UploadVerdict | server/VerificationApi/Program.cs:191-203 | the guards apply in order: any empty key, exp or sig gives 400; an unparsable exp gives 400; exp in the past gives 410 before the signature is looked at; an exp outside the seconds `DateTimeOffset` can hold (years 1 to 9999) makes `FromUnixTimeSeconds` throw, so the answer is 500 exactly when the earlier guards pass and exp is out of that range; 410 exactly when exp is in range and past; 401 exactly when exp is in range, not past, and sig is not the signature of "key:exp"; the upload is accepted (200) iff exp is in range and not past and sig is the signature of "key:exp" |
| VerificationApi.ExpiredWhateverSignature | server/VerificationApi/Program.cs:197-198 | an expired URL answers 410 whatever signature it carries |
| VerificationApi.HandleUpload | server/VerificationApi/Program.cs:184-210 | the handler answers as UploadVerdict does and reports the byte count exactly when it accepts; nothing is stored |
| VerificationApi.IssueUploadUrl | server/VerificationApi/Program.cs:172-180 | the URL's expiry is the issue time plus five minutes in whole seconds, rounded down, and its signature is the signature of "key:exp"; the URL text is scheme://host/api/upload with the key, the decimal expiry and the signature as its key, exp and sig query values |
| VerificationApi.IssuedUrlIsAccepted | server/VerificationApi/Program.cs:175-202 | an issued URL's key, expiry text and signature pass every upload guard up to its expiry second |
| VerificationApi.IssuedUrlExpires | server/VerificationApi/Program.cs:175-198 | after its expiry second the same URL answers 410 |
| VerificationApi.PayloadInjective | server/VerificationApi/Program.cs:176 | "key:exp" determines both the key and the expiry, so a signature binds both |
| VerificationApi.SizeKb | server/VerificationApi/Program.cs:129 | the size in KB is a 32-bit integer, and length / 1024 whenever that fits |
| VerificationApi.Mock | server/VerificationApi/Program.cs:129-152 | the type is ID, the country RS, the document number "RS-" followed by the decimal mock number, the confidence 78..95 hundredths, the quality medium or good |
| VerificationApi.SizeKbOfAcceptedUpload | server/VerificationApi/Program.cs:129 | for uploads within the 50 MB form limit the cast is exact: sizeKb = length / 1024, between 0 and 51200 |
| VerificationApi.MockFields | server/VerificationApi/Program.cs:129-148 | for sizeKb >= 0 the document number is "RS-" and a value in [100000, 999999] of exactly six digits; glare iff sizeKb % 3 == 0, screenshot iff % 7 == 0, medium quality iff % 5 == 0; confidence 0.78 + (sizeKb % 11) hundredths, so within 0.78..0.88 |
| VerificationApi.HandleVerify | server/VerificationApi/Program.cs:116-167 | 400 without form content and 400 without a non-empty image, neither touching the log; otherwise the mock result for the size, with one audit event "doc=<number>" written |
| VerificationApi.HandleAudit | server/VerificationApi/Program.cs:213-215 | the log size and its newest min(clamp(take, 1, 500), count) entries, newest first, so at least one when the log is not empty |
| IntMath.Clamp | server/VerificationApi/Program.cs:214 | the result lies in [lo, hi], equals x inside, lo below and hi above |
| Decimal.DigitsValueOfNatToString | server/VerificationApi/Program.cs:178 | reading back the decimal text of a natural number gives the number |
| Decimal.NatToStringLength | server/VerificationApi/Program.cs:142 | a number with k significant digits is written with exactly k characters |

## Left out

- The pixel scoring of a frame (luminance variance, guide fill fraction, resizing) is floating-point work over browser buffers. Its verdict is the `frameOk` input of `Tick`.
- The camera stream, `requestAnimationFrame`, `setTimeout`, `canvas.toBlob` and object URLs. Timers are the events `Tick` and `DebounceFire`. An asynchronous `toBlob` is taken to finish at once, inside `CaptureFrame`.
- Preview URLs are not modelled. Neither is a second loop started while one runs: the page keeps one `loopActive` flag, where the browser would run two animation-frame chains.
- HTTP calls, `localStorage`, alerts, the template and styles, `toggleMode`, `getToken`, `signedUpload` and `verify()` on the client are UI and network plumbing.
- The recognition engine itself is outside the model: module loading, `processImage`, `getResult` and `fileToFrame`. Each call is an outcome parameter.
- The numeric `DocumentType` branch of `docKind` is not modelled. It compares against enum values of the foreign library, and the library's module variable never appears on `globalThis`, so the branch is not taken.
- BlinkId.Js: numbers are unbounded integers only. A fractional `recognitionConfidence` or date component is not representable; JavaScript's `String(n)` writes 1e21 and above as `1e+21`, and integers above 2^53 are inexact, neither of which the model's decimal text reproduces.
- BlinkId.BlinkIdSdkService.Init: it is atomic. The source awaits three times (blinkid-sdk.service.ts:28-45), so a `dispose` during loading (the mode toggle turning SDK mode off) can be followed by the resumed `init` marking the service loaded; that interleaving is not modelled.
- JsText.ToLower: it lower-cases ASCII capitals and the capital C with caron only. Full Unicode case mapping is not modelled, and strings are sequences of Unicode scalar values rather than UTF-16 code units.
- BlinkId.Val: its own contract states only the empty case. That `val` answers with the first usable candidate is the lemma `BlinkId.ValIsFirstUsable`.
- BlinkId.ErrorMessage: the message for an engine failure is the model's own. The source rethrows whatever the engine threw.
- VerificationApi.Sign: HMAC-SHA256 (RFC 2104 over FIPS 180-4 SHA-256) is the parameter `hmac`. Nothing is assumed about it beyond being a function, so the model proves no unforgeability.
- JWT issuance and validation, `/api/token`, `/api/health`, CORS, Hangfire and the authorization middleware are hosting and foreign crypto. So is the re-verification job that `/api/verify` enqueues.
- VerificationApi.ParseLong: it does not accept the trailing NUL characters that .NET's integer parsing also allows.
- VerificationApi.HandleUpload: query values are taken as single strings. A repeated query key, which ASP.NET joins with commas, is not modelled.
- VerificationApi.HandleVerify: the 350 ms delay and `processedAt` are not modelled. The 50 MB form limit is not enforced, so the model admits any length; `SizeKbOfAcceptedUpload` covers the lengths the form reader accepts. The confidence is in hundredths (`confidencePercent`) rather than a double.
- VerificationApi.HandleAudit: a missing or non-integer `take` is rejected by the framework before the handler runs, and that is not modelled.
- Audit.InMemoryAuditLog: the log is a sequential queue. `ConcurrentQueue` thread safety, and a `Count` read between concurrent writes, are not modelled.
- `server/VerificationApi/Jobs/VerificationJobs.cs`, `server/VerificationApi/Infra/Queue.cs`, `server/VerificationApi/Config/Options.cs`, `client/src/main.ts` and `client/src/app/toast.service.ts` are not part of this model. They are audit-writing jobs, GUID stubs, configuration defaults, bootstrap and timed notifications.
- AutoCapture.AppComponent: backend-mode `verify()` sets the step to done with no back file (app.component.ts:486). `verify()` is not modelled, so the invariant's `step == Done ==> backFile.Some?` holds for the modelled methods only.
- Three behaviours a reader might expect are not in the code, and the model follows the code. There is no delay between the two sides and no edge-density measure. `quickCheckSide` is never called, so no side-mismatch rollback happens. Step `done` does not imply that both images are present: choosing only a back file reaches `done`, and choosing a front file moves `done` back to `back`.
