# A verified model of gostats' validating MockStore

`MockStore` in lyft/gostats is the test double for a metrics store. Every
creation call (`Scope`, `ScopeWithTags`, `NewCounter`, `NewCounterWithTags`,
`NewPerInstanceCounter`, and the same for gauges and timers) does four
things in order:

1. It checks the stat name and every tag key and value with `validateStat`.
   It also checks that every tag value is already in the form `tags.ReplaceChars` produces.
2. It reports each violation through `errorf`. The store's test context
   decides the effect: ignore, log, panic, or a non-fatal test failure.
3. It forwards the call, with unchanged arguments, to the wrapped `statStore`.
4. It flushes the wrapped store.

This project models those pieces in Dafny and proves what they promise.

- `wrappers.dfy`, module `Wrappers`: `Option`, where `None` stands for Go's nil error.
- `utf8.dfy`, module `Utf8`: Go strings as byte sequences. It covers the
  UTF-8 syntax of section 3 and section 4 of RFC 3629: the width and value
  of the head character, the encoder, whole-string validity (`utf8.ValidString`)
  and the runes a `range` loop yields.
  Round trips in both directions connect the decoder and the encoder.
- `validate_stat.dfy`, module `StatValidation`: `validateStat` as the rune-wise
  reference `ValidateStat`, the byte-wise scan `CheckStat` proved equal to it,
  and the lemmas that pin down its verdicts. `IsPrintAscii` and `IsSpaceAscii`
  model `unicode.IsPrint` and `unicode.IsSpace` on ASCII, and `CharVerdict`
  models the per-character tests of the scan.
- `validate_stats.dfy`, module `StatsValidation`: `validateStats` as
  `ValidateStats`, for one map iteration order. Go randomizes that order,
  so it is an input, and `OrderExists` shows every map has one. Every
  property is stated per key, or over the multiset of reports.
- `reporting.dfy`, module `Reporting`: the mode dispatch of `errorf`. The
  source compares the context against its two sentinels and nil; here the
  context maps to a four-valued `Mode` once, in `ModeOf`, and `Errorf` gives
  the effect of one `errorf` call.
- `mock_store.dfy`, module `MockStore`: the creation methods as a machine
  that produces a trace of events: reports, `Delegated(call)` and `Flushed`.
  `Call` names the creation method and its arguments. `Handle` models one
  creation method: it validates, reports, delegates and flushes. `Proxy` is
  the same machine for a given list of reports. `Emit` models the `errorf`
  calls in a row.
  A panic ends the trace. `Session` runs many calls in a row.

Two consequences of the rule order in `validateStat`:

- A tab or newline is reported as non-printable, not as whitespace,
  because `unicode.IsPrint` is tested before `unicode.IsSpace`
  (mock_store.go:202-207). The only whitespace `validateStat` ever reports
  is the space (`CharVerdict`, `TabVerdict`).
- A string that contains a character at or above U+0080 is not always
  reported as non-ASCII. The verdict comes from the first offending
  character, so `"a\x01é"` is reported as non-printable
  (`ControlBeforeNonAsciiVerdict`).

## Model

| member | source | states |
|---|---|---|
| Utf8.Decode | mock_store.go:198 | the character a `range` step decodes is a Unicode scalar value, ASCII exactly when its lead byte is, and encoded in its shortest form |
| Utf8.EncodeDecode | mock_store.go:195 | encoding any scalar value gives a well-formed character that decodes back to it |
| Utf8.DecodeEncode | mock_store.go:195 | re-encoding a decoded head character gives back exactly the bytes it came from |
| Utf8.RunesEncode | mock_store.go:195-198 | every valid string is the concatenated encoding of the runes `range` yields over it |
| Utf8.EncodeAllRunes | mock_store.go:195-198 | encoding any rune sequence gives a valid string whose runes are that sequence |
| Utf8.AsciiRunes | mock_store.go:195-199 | a string of bytes below RuneSelf is valid UTF-8 and each byte is its own rune |
| Utf8.ValidString | mock_store.go:195 | the character-by-character validity scan accepts exactly the valid strings |
| StatValidation.CharVerdict | mock_store.go:199-207 | per character, tested in source order: a rune at or above 0x80 is NonAscii, a control rune or DEL is NonPrintable(r) (tab and newline included), the space is Whitespace(0x20); accepted exactly for '!'..'~'; only the space can be whitespace |
| StatValidation.FirstOffenceNone | mock_store.go:198-209 | the scan passes exactly when every character is acceptable |
| StatValidation.FirstOffenceIsFirst | mock_store.go:198-208 | the scan reports e exactly when some character has verdict e and all before it are acceptable |
| StatValidation.RunesAgreeWithBytes | mock_store.go:198-201 | on valid UTF-8, scanning decoded runes and scanning raw bytes give the same verdict |
| StatValidation.ValidateStatAcceptsExactly | mock_store.go:191-210 | validateStat succeeds exactly when the string is non-empty and every byte is printable, non-space ASCII |
| StatValidation.InvalidUtf8First | mock_store.go:195-197 | an ill-formed non-empty string is always reported as invalid UTF-8, and nothing else is |
| StatValidation.ValidateStatFirstOffence | mock_store.go:198-208 | on a valid non-empty string the verdict is that of the first unacceptable byte, in source rule order |
| StatValidation.CheckStat | mock_store.go:191-210 | the byte-wise implementation (empty, then whole-string UTF-8, then left-to-right scan) agrees with the rune-wise definition on every input |
| StatValidation.EmptyVerdict | mock_store.go:192-194 | the empty string is rejected as empty |
| StatValidation.SpaceVerdict | mock_store.go:205-207 | "a b" is rejected for whitespace ' ' |
| StatValidation.TabVerdict | mock_store.go:202-204 | "a\tb" is rejected as non-printable, not as whitespace |
| StatValidation.ControlBeforeNonAsciiVerdict | mock_store.go:198-204 | "a\x01é" is rejected as non-printable: the first offending character wins |
| StatValidation.NonAsciiBeforeControlVerdict | mock_store.go:199-201 | "aé\x01" is rejected as non-ASCII |
| StatValidation.InvalidBeforeControlVerdict | mock_store.go:195-197 | "a\xff\x01" is rejected as invalid UTF-8 before any character is classified |
| StatsValidation.NameReports | mock_store.go:216-218 | the name yields at most one report, and none exactly when validateStat accepts it |
| StatsValidation.OrderReports | mock_store.go:220-231 | the visited pairs yield at most three reports each, all about visited keys |
| StatsValidation.EveryPairChecked | mock_store.go:220-231 | for every key, whatever the order, the reports about it are exactly its key, value and sanitizer reports in that order |
| StatsValidation.NameCheckedOnce | mock_store.go:216-218 | the reports about the name are exactly validateStat's verdict on it, at most once |
| StatsValidation.UnsanitizedIff | mock_store.go:227-230 | a sanitizer report for key k with value v and clean form c appears exactly when tags[k] = v, ReplaceChars(v) = c and c != v, independent of validateStat(v) |
| StatsValidation.ReportBound | mock_store.go:212-232 | a call produces at most 1 + 3·|tags| reports |
| StatsValidation.SilentIff | mock_store.go:212-232 | a call reports nothing exactly when the name, all keys and values pass and every value is already sanitized |
| StatsValidation.OrderExists | mock_store.go:220 | every tag map, nil or empty included, has an iteration order that visits each key once |
| StatsValidation.ValidNameNoTags | mock_store.go:216-220 | a valid name with nil or empty tags produces no report |
| StatsValidation.OrderIndependent | mock_store.go:220 | two iteration orders of the same map produce the same multiset of reports |
| Reporting.ModeOf | mock_store.go:179-188 | each context selects exactly one mode: the `IgnoreErrors` sentinel (declared at mock_store.go:24-28) and only it selects ignoring, the `LogErrors` sentinel and only it selects logging, only nil selects the panicking one, only a real test the failing one |
| Reporting.Errorf | mock_store.go:175-189 | dispatch is total, keeps the message, stops execution only without a test context, is silent only when ignoring |
| MockStore.EmitContinues | mock_store.go:216-230 | with a test context every report takes effect in order and nothing panics; the surfaced reports are all of them, or none when ignoring |
| MockStore.EmitNoContext | mock_store.go:184-185 | without a test context the first report panics and nothing after it runs |
| MockStore.DelegatesUnchanged | mock_store.go:63-173 | with a test context, whatever validation found, the wrapped store sees exactly one delegation with the caller's arguments, then one flush |
| MockStore.EveryReportSurfaces | mock_store.go:212-232 | when logging or failing tests, the trace carries exactly the validateStats reports, each as a log line or a non-fatal failure |
| MockStore.IgnoreIsSilent | mock_store.go:180-181 | with IgnoreErrors even an invalid call leaves only the delegation and the flush |
| MockStore.NoContextAborts | mock_store.go:184-185 | without a test context an invalid call panics with its first report before delegation; a valid one delegates and flushes |
| MockStore.UntaggedChecksNameOnly | mock_store.go:85-93 | the untagged forms pass nil tags, so only the name is checked |
| MockStore.SessionDelegatesEach | mock_store.go:63-173 | over a session with a test context, the wrapped store sees every call once, in order, each followed by one flush |
| MockStore.RepeatedValidCall | mock_store.go:63-173 | the same valid call made twice reports nothing and reaches the wrapped store twice, each time followed by a flush |
| MockStore.UntaggedCall | mock_store.go:85-93 | an untagged call under a failing-test context fails at most once, for its name, and is created either way |
| MockStore.RequestCountVerdict | mock_store.go:205-207 | "request count" is rejected for the space |
| MockStore.OneTagCounter | mock_store.go:95-103 | a one-tag counter with valid name and key fails once for an invalid value, once more if the sanitizer changes the value, and is created either way |
| MockStore.TagValueWithSpace | mock_store.go:95-103 | NewCounterWithTags("requests", {"method": "GET "}) fails for whitespace under "method", then as unsanitized exactly when ReplaceChars changes "GET " |

## Left out

- `Reset`, `Sink`, `Store`, `AddStatGenerator`, `Flush` forwarding and the no-op `Start` (mock_store.go:49-61, 83) are plumbing to the wrapped `statStore` and `mock.Sink`, which are not part of this model. Their effect on a creation call appears only as the `Delegated` and `Flushed` events.
- `NewMockStore` (mock_store.go:39-47) only builds the store. The model passes the mode and the sanitizer to each operation instead.
- The returned `Scope`/`Counter`/`Gauge`/`Timer` handles come from the wrapped store, so `Delegated(call)` stands for them. The per-instance tag merge also happens inside the wrapped store.
- `tags.ReplaceChars` is not part of this model. It is an arbitrary function parameter, and no property depends on its rules.
- `t.Helper()` calls only affect failure locations, so they are left out.
- The `fmt` message text and `%q` quoting are left out. A report records its kind, its role (name, key or value), the offending key and the rune.
- `unicode.IsPrint` and `unicode.IsSpace` are modelled only on ASCII. The non-ASCII test runs first, so they are never applied to other runes.
- A nil tag map and an empty one iterate the same way, so both are the empty map.
- Reporting.Errorf, MockStore.EmitContinues, MockStore.DelegatesUnchanged, MockStore.EveryReportSurfaces, MockStore.SessionDelegatesEach: the `LogErrors` case is modelled as a log line after which execution continues. The source's own comment warns that `Logf` on this sentinel panics. That depends on the internals of `testing.T`, which are not part of this model.
