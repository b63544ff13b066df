# AutoConnect enhanced credential store, modelled in Dafny

This project models the core of the AutoConnect "enhanced" layer. The main
piece is a bounded store of Wi-Fi credentials. Around it sit the
value-level helpers the store and the configuration rely on.

- **Credential store** (`credential_enhanced.dfy`, module `CredentialEnhanced`).
  - `EnhancedCredential` records, with their validation and usage statistics.
  - Conversion to and from the legacy `station_config` layout.
  - The `AutoConnectCredentialEnhanced` class: a one-way initialization flag and a capacity-bounded list of records.
  - `addCredential` updates an existing SSID in place, or evicts the least recently used record when a new SSID arrives at capacity.
  - Lookup and removal by SSID.
  - A most-recent-first SSID listing.
  - A JSON export that never writes the password.
- **Resource helpers** (`raii.dfy`, module `RAII`).
  - `SecureString`: a fixed buffer that is zeroed on set and on clear.
  - `StringBuilder`: a list of parts plus a running size.
  - `MemoryPool`: a 4-byte-aligned bump allocator.
  - `TimeoutHelper`: 32-bit wrap-around elapsed time, with the clock passed in.
- **Input sanitizer** (`input_sanitizer.dfy`, module `InputSanitizer`).
  - HTML escaping and filename cleaning.
  - The SSID check: 1 to 32 octets (one `char` per byte), from IEEE 802.11-2016 section 9.4.2.2.
  - The WPA2 passphrase check: empty, or 8 to 63 characters, from IEEE 802.11-2016 Annex J.4.1.
  - The hostname-label check: 1 to 63 alphanumerics or hyphens, with no hyphen at either end, from RFC 1123 section 2.1.
- **Advanced configuration** (`advanced_config.dfy` and `feature_mask.dfy`).
  - Range checks on the network, portal and memory sections.
  - The `AC_FEATURE_*` bit mask.
  - A cross-field validation.
  - The memory estimate.
  - The copy of the settings into the base configuration.
- **Result type** (`errors.dfy`, module `Errors`).
  - `ACError` and `ACResult`, with their truth tests and `errorString`.
  - The validation macros, written as functions that return the early exit.
- **Shared vocabulary** (`arduino_types.dfy`, module `ArduinoTypes`).
  - Fixed-width integers as bounded naturals.
  - The C-string view of a buffer.
  - `strncpy`, and `printf "%u"` with its inverse.

Stateful parts of the source are classes with `modifies` clauses: the store, `SecureString`, `StringBuilder`, `MemoryPool`, `TimeoutHelper`, and the feature and base fields of the configuration. Credential records, configuration sections and results are datatypes.

Each store method is proved against a specification function on the list of records:

- `Upsert` for adding;
- `IndexOfSsid` for lookup;
- `RemoveAt` for removal;
- `ExportJson` for the export.

Lemmas about those functions then prove what the store promises:

- the SSIDs stay unique;
- the list never exceeds its capacity;
- every record stays valid;
- eviction takes the first record with the smallest timestamp;
- the listing is a permutation of the SSIDs, ordered by non-increasing timestamp;
- the export depends on no field other than the SSID, mode, timestamp and count.

Some behaviour of the store worth knowing:

- An absent SSID answers `CREDENTIAL_LOAD_ERROR`; the error enumeration has no not-found kind.
- `exportToJSON` lists the records in list order.
- Only `addCredential`, `getCredential` and `removeCredential` refuse an uninitialized store; `initialize` reads the flag only to answer "Already initialized". `clearAll`, `getCredentialCount`, `getAvailableSSIDs` and `exportToJSON` also succeed on an uninitialized store.
- A record's `validate` checks the SSID and password lengths only; static addresses are not checked.
- Saving cannot fail, because `_saveCredentials` is a stub.
- Ties in the listing have no defined order, because `std::sort` is not stable and its comparator only compares timestamps.

## Model

| member | source | states |
|---|---|---|
| Errors.DefaultResult | src/AutoConnectError.h:50-51 | A default-constructed result is a success (truthy, not an error) with an empty message |
| Errors.Of | src/AutoConnectError.h:50-51 | A result built from an error kind carries that kind and an empty message, and is a success exactly when the kind is SUCCESS |
| Errors.ResultTruthiness | src/AutoConnectError.h:54-64 | `operator bool` and `isSuccess` agree and hold exactly when the error is SUCCESS; `isError` is their negation |
| Errors.ErrorTextInjective | src/AutoConnectError.h:66-92 | `errorString` is total over the 22 kinds and gives every kind a different text |
| Errors.ValidateParam | src/AutoConnectError.h:133-139 | The guard returns early exactly when the condition is false, with the given error and "Parameter validation failed: " plus the condition text |
| Errors.ValidateParamBool | src/AutoConnectError.h:141-147 | The boolean guard returns `false` exactly when the condition fails, and continues otherwise |
| Errors.ValidateNotNull | src/AutoConnectError.h:149-150 | A null pointer returns INVALID_PARAMETER with "Parameter validation failed: " plus the condition text; a non-null pointer continues |
| Errors.ValidateStringLength | src/AutoConnectError.h:152-153 | A string passes exactly when its length is at most the maximum, so equality passes; otherwise the result is INVALID_PARAMETER with "Parameter validation failed: " plus the condition text |
| ArduinoTypes.StrncpyRoundTrip | src/AutoConnectCredentialEnhanced.h:75-76 | strncpy of a terminator-free string shorter than the field pads it with zeros, and c_str reads the string back |
| ArduinoTypes.StrncpyFillsField | src/AutoConnectCredentialEnhanced.h:75 | strncpy of a string as long as the field copies it whole and leaves no terminator in the field |
| ArduinoTypes.FormatUnsigned | src/AutoConnectCredentialEnhanced.h:312-313 | The `%u` text of a number is a non-empty string of decimal digits that starts with `0` only when the number is 0, and is exactly `0` for 0 |
| ArduinoTypes.FormatUnsignedRoundTrip | src/AutoConnectCredentialEnhanced.h:312-313 | The decimal text `%u` prints for a number parses back to that number |
| ArduinoTypes.FormatUnsignedLength | src/AutoConnectCredentialEnhanced.h:312-313 | A 32-bit value prints in at most ten digits |
| InputSanitizer.CheckHostname | src/AutoConnectRAII.h:355-368 | The early-return scan accepts exactly the labels of 1..63 alphanumerics or hyphens that neither start nor end with a hyphen |
| InputSanitizer.IsValidSSID | src/AutoConnectRAII.h:347-349 | The definition: an SSID is valid when it has 1 to 32 characters |
| InputSanitizer.IsValidPassword | src/AutoConnectRAII.h:351-353 | The definition: a password is valid when it is empty (an open network) or has 8 to 63 characters |
| InputSanitizer.SanitizeHTML | src/AutoConnectRAII.h:316-324 | The definition: five whole-string replacement passes, `&` first, then `<`, `>`, `"` and `'`; its properties are the three lemmas that follow |
| InputSanitizer.SanitizeHTMLIsEscape | src/AutoConnectRAII.h:316-324 | The five whole-string replacement passes equal escaping each character on its own, so no entity inserted by an earlier pass is escaped again |
| InputSanitizer.SanitizeHTMLProperties | src/AutoConnectRAII.h:316-324 | The escaped text contains no `<`, `>`, `"` or `'`, is between one and six times as long as the input, and gains no terminator |
| InputSanitizer.SanitizeHTMLLeavesPlainText | src/AutoConnectRAII.h:316-324 | Text without `&`, `<`, `>`, `"` and `'` comes back unchanged |
| InputSanitizer.SanitizeFilename | src/AutoConnectRAII.h:326-345 | The output is non-empty, uses only alphanumerics, `_`, `-` and `.`, and never starts with `.`. Each input character is kept if safe and replaced by `_` otherwise. `file_` is prepended exactly when the input is empty or starts with `.`, so the length is the input's length or that plus 5 |
| RAII.SecureString.constructor | src/AutoConnectRAII.h:180-184 | A new buffer has the requested capacity, every byte zero, and length 0 |
| RAII.SecureString.Set | src/AutoConnectRAII.h:198-206 | Succeeds exactly when the string is shorter than the capacity. On failure nothing changes. On success the buffer is the strncpy image of the string followed only by zeros, and the length is the string's length; a terminator-free string is then read back by c_str |
| RAII.SecureString.Clear | src/AutoConnectRAII.h:220-223 | Every byte becomes zero and the length 0, so the buffer is empty and c_str reads nothing; clearing again gives the same state |
| RAII.SecureString.Wipe | src/AutoConnectRAII.h:186-192 | The memset of the destructor and of clear: every byte of the buffer is zero |
| RAII.SecureString.CStr | src/AutoConnectRAII.h:208-210 | What c_str exposes holds no terminator and fits in the buffer |
| RAII.SecureString.Length | src/AutoConnectRAII.h:212-214 | The stored length is 0 or leaves room for the terminator, and what c_str exposes is no longer than it |
| RAII.SecureString.IsEmpty | src/AutoConnectRAII.h:216-218 | A buffer whose length is 0 exposes the empty C string |
| RAII.ZeroedBufferIsEmpty | src/AutoConnectRAII.h:180-184 | A zeroed buffer reads as the empty C string |
| RAII.ConcatLength | src/AutoConnectRAII.h:139-148 | The concatenation of the parts is as long as the sum of their lengths |
| RAII.ConcatAppend | src/AutoConnectRAII.h:139-148 | Concatenating two part lists one after the other equals concatenating each and joining the results |
| RAII.StringBuilder.constructor | src/AutoConnectRAII.h:106-108 | A new builder has no parts and size 0 |
| RAII.StringBuilder.Append | src/AutoConnectRAII.h:110-114 | The string becomes the last part, the size grows by its length, and the text grows by exactly the string |
| RAII.StringBuilder.AppendCStr | src/AutoConnectRAII.h:116-122 | A null pointer changes nothing; otherwise the C string becomes the last part and the size grows by its length |
| RAII.StringBuilder.AppendFormatted | src/AutoConnectRAII.h:130-137 | Formatted text shorter than the 256-byte buffer is appended whole (up to its first terminator); longer text is cut to 255 characters |
| RAII.StringBuilder.ToString | src/AutoConnectRAII.h:139-148 | The result is the in-order concatenation of all parts, and its length is the running size |
| RAII.StringBuilder.Clear | src/AutoConnectRAII.h:156-159 | Afterwards there are no parts, the size is 0, and the builder is empty |
| RAII.StringBuilder.EstimatedSize | src/AutoConnectRAII.h:161-163 | The running size is the length of the text toString builds |
| RAII.StringBuilder.IsEmpty | src/AutoConnectRAII.h:165-167 | A builder without parts builds the empty text |
| RAII.EmptyBuilderHasNoSize | src/AutoConnectRAII.h:161-167 | An empty builder reports size 0 |
| RAII.AlignUp | src/AutoConnectRAII.h:251 | The rounded request is the least multiple of 4 not below the request |
| RAII.AlignUpAsWritten | src/AutoConnectRAII.h:251 | In 32-bit arithmetic, `(bytes + 3) & ~3` agrees with the rounding for every request up to 2^32 - 4 |
| RAII.AllocateAsWrittenOverflows | src/AutoConnectRAII.h:249-262 | As written on 32-bit size_t, 0xFFFFFFFF rounds to 0 and is granted from a 16-byte pool, and 0xFFFFFFF8 at offset 8 is granted and rewinds the offset to 0, although neither fits |
| RAII.MemoryPool.constructor | src/AutoConnectRAII.h:236-243 | A pool starts at offset 0; it has the requested size when the buffer was obtained and size 0 with no buffer otherwise |
| RAII.MemoryPool.Allocate | src/AutoConnectRAII.h:249-262 | A request whose rounded size does not fit returns null and leaves the offset alone; otherwise the old offset is handed out and the offset advances by the rounded size, never past the pool size |
| RAII.MemoryPool.Reset | src/AutoConnectRAII.h:264-267 | The offset returns to 0 and every byte of the buffer is zero |
| RAII.MemoryPool.Available | src/AutoConnectRAII.h:269-275 | Used plus available is always the pool size |
| RAII.MemoryPool.Used | src/AutoConnectRAII.h:273-275 | The bytes handed out never exceed the pool size |
| RAII.MemoryPool.IsValid | src/AutoConnectRAII.h:277-279 | A pool without a buffer has size 0 and nothing available |
| RAII.WrappingElapsed | src/AutoConnectRAII.h:298-300 | Elapsed time is the 32-bit difference: start plus elapsed is now modulo 2^32, and it is the plain difference when the counter has not wrapped |
| RAII.TimeoutHelper.constructor | src/AutoConnectRAII.h:291-292 | The start time is the clock reading at construction and the timeout is the one given |
| RAII.TimeoutHelper.Elapsed | src/AutoConnectRAII.h:298-300 | Start plus elapsed equals now modulo 2^32 |
| RAII.TimeoutHelper.IsExpired | src/AutoConnectRAII.h:294-296 | Expired when the wrapped elapsed time reaches the timeout: a zero timeout is expired at once, and at the start time only a zero timeout is |
| RAII.TimeoutHelper.Remaining | src/AutoConnectRAII.h:302-305 | The remaining time is 0 exactly when the timeout has expired, otherwise remaining plus elapsed is the timeout; it never exceeds the timeout |
| RAII.TimeoutHelper.Restart | src/AutoConnectRAII.h:307-309 | Restarting sets the start to now and keeps the timeout; no time has then elapsed, so it is expired only for a zero timeout |
| RAII.ExpiryAcrossWrap | src/AutoConnectRAII.h:294-296 | A deadline that straddles the counter wrap is measured correctly: started 100 ms before 2^32, at 49 after the wrap 149 ms have elapsed and 1 ms remains |
| FeatureMask.WithFeature | src/AutoConnectAdvancedConfig.h:286-288 | Enabling sets every bit of the feature, leaves all other bits unchanged, and a non-zero feature then tests present |
| FeatureMask.WithoutFeature | src/AutoConnectAdvancedConfig.h:293-295 | Disabling clears every bit of the feature and leaves all other bits unchanged |
| FeatureMask.FeatureOverhead | src/AutoConnectAdvancedConfig.h:305-315 | The feature part of the estimate is at most 2048 + 4096 + 8192, and zero exactly when none of FILESYSTEM, OTA and PORTAL is enabled |
| FeatureMask.FeatureOverheadMonotone | src/AutoConnectAdvancedConfig.h:305-315 | A mask with more features never has a smaller overhead |
| FeatureMask.EnablingNeverLowersOverhead | src/AutoConnectAdvancedConfig.h:286-288 | Enabling features never lowers the memory estimate |
| FeatureMask.DisablingNeverRaisesOverhead | src/AutoConnectAdvancedConfig.h:293-295 | Disabling features never raises the memory estimate |
| AdvancedConfig.NetworkConfig.Validate | src/AutoConnectAdvancedConfig.h:56-74 | Succeeds exactly when the SSID and password are valid, the hostname is empty or a valid label, and the timeout is 5000..300000 ms; every failure is INVALID_PARAMETER, and the first failing check gives the message ("Invalid SSID", "Invalid password", "Invalid hostname", then the timeout message) |
| AdvancedConfig.DefaultNetworkConfig | src/AutoConnectAdvancedConfig.h:50-54 | The defaults are a 30 s timeout, 3 retries and DHCP |
| AdvancedConfig.PortalConfig.Validate | src/AutoConnectAdvancedConfig.h:106-124 | Succeeds exactly when the AP SSID and password are valid, the channel is 1..13 and the port is at least 80 (the upper port test cannot fire for a 16-bit port) |
| AdvancedConfig.DefaultPortalConfig | src/AutoConnectAdvancedConfig.h:95-104 | The defaults are channel 1, port 80, no timeout, not hidden, and the given AP name and passphrase |
| AdvancedConfig.MemoryConfig.Validate | src/AutoConnectAdvancedConfig.h:146-156 | Succeeds exactly when the JSON buffer is 1024..32768 bytes and the maximum string length is at most half of it |
| AdvancedConfig.DefaultMemoryConfig | src/AutoConnectAdvancedConfig.h:138-144 | The defaults (8192, 4096) pass memory validation |
| AdvancedConfig.AutoConnectAdvancedConfig.constructor | src/AutoConnectAdvancedConfig.h:228-243 | A new configuration has the given features, the default network, portal, memory, security and debug sections, file formatting off, a 1 MiB file limit and 50 files, and the base settings it was given |
| AdvancedConfig.AutoConnectAdvancedConfig.HasFeature | src/AutoConnectAdvancedConfig.h:279-281 | A feature is enabled when some bit of it is in the mask: never for an empty feature or an empty mask, always when all of its bits are set |
| AdvancedConfig.AutoConnectAdvancedConfig.Validate | src/AutoConnectAdvancedConfig.h:248-274 | Succeeds exactly when all three sections pass, FILESYSTEM implies a file limit of at least 1024, and DEBUG file logging implies FILESYSTEM; a failing section's own result is returned, in the order network, portal, memory; then "Max file size too small" and "File logging requires filesystem feature", each under its own condition |
| AdvancedConfig.AutoConnectAdvancedConfig.EnableFeature | src/AutoConnectAdvancedConfig.h:286-288 | The mask becomes the old mask with the feature's bits set; no other field (sections, file settings, base settings) changes |
| AdvancedConfig.AutoConnectAdvancedConfig.DisableFeature | src/AutoConnectAdvancedConfig.h:293-295 | The mask becomes the old mask with the feature's bits cleared; no other field (sections, file settings, base settings) changes |
| AdvancedConfig.AutoConnectAdvancedConfig.EstimateMemoryUsage | src/AutoConnectAdvancedConfig.h:300-318 | The estimate is at least the object size plus the JSON buffer, at most that plus all three overheads, and includes 2048 when FILESYSTEM, 4096 when OTA and 8192 when PORTAL is enabled |
| AdvancedConfig.AutoConnectAdvancedConfig.ApplyToBase | src/AutoConnectAdvancedConfig.h:323-346 | AP name, passphrase and hostname are copied only when non-empty; addresses, channel, hidden flag and both timeouts are always copied; the ticker is on exactly when TICKER is enabled; every field other than the base settings is unchanged |
| AdvancedConfig.DefaultsNeedAnSsid | src/AutoConnectAdvancedConfig.h:56-60 | The default network section fails validation with "Invalid SSID", because its SSID is empty |
| CredentialEnhanced.NewCredential | src/AutoConnectCredentialEnhanced.h:40-44 | A new record has empty strings, a zero BSSID and zero addresses, DHCP mode, zero statistics and RSSI -120 |
| CredentialEnhanced.Validate | src/AutoConnectCredentialEnhanced.h:46-64 | A record passes exactly when its SSID is valid (1..32) and its password valid (empty or 8..63); failures are INVALID_PARAMETER, with the empty-SSID check first and then the short-password check |
| CredentialEnhanced.ValidateBoundaries | src/AutoConnectCredentialEnhanced.h:55-61 | Open networks pass, a 7-character password fails as too short, 8 and 63 characters pass |
| CredentialEnhanced.UpdateStats | src/AutoConnectCredentialEnhanced.h:66-70 | The timestamp becomes now and the RSSI the given one; the count grows by one modulo 2^32; nothing else changes |
| CredentialEnhanced.UpdateStatsKeepsValidity | src/AutoConnectCredentialEnhanced.h:66-70 | Updating the statistics never changes the validation result |
| CredentialEnhanced.ToLegacy | src/AutoConnectCredentialEnhanced.h:73-87 | The BSSID and mode carry over; the addresses are copied for a static configuration and zero otherwise |
| CredentialEnhanced.LegacyStringsReadBack | src/AutoConnectCredentialEnhanced.h:74-76 | Read within their fields, the legacy password field gives back the password and the SSID field the SSID, including a 32-character SSID that fills its field |
| CredentialEnhanced.FromLegacy | src/AutoConnectCredentialEnhanced.h:90-103 | With the SSID read bounded by its 32-byte field (the corrected read of the Findings row), the SSID becomes the field's C string; the password too, unless it does not fit (then set refuses and the old one stays); BSSID and mode are copied; the addresses only for a static configuration; the statistics are untouched |
| CredentialEnhanced.LegacyRoundTrip | src/AutoConnectCredentialEnhanced.h:73-103 | Converting any record to the legacy layout and back (with the bounded SSID read) gives the same record |
| CredentialEnhanced.LegacyTransfer | src/AutoConnectCredentialEnhanced.h:73-103 | Loading the legacy form into any record carries the strings, BSSID, mode and, when static, the addresses across |
| CredentialEnhanced.LegacyFullSsidIsUnterminated | src/AutoConnectCredentialEnhanced.h:75 | A 32-character SSID fills the legacy field with no terminator |
| CredentialEnhanced.FromLegacyAsWritten | src/AutoConnectCredentialEnhanced.h:90-91 | As written, the SSID read runs on into the password field when the SSID field has no terminator; with a non-empty password the longer string is refused and the record keeps its old SSID; otherwise it loads as the bounded read does |
| CredentialEnhanced.LegacyFullSsidLost | src/AutoConnectCredentialEnhanced.h:73-103 | As written, a 32-character SSID saved with a non-empty password is not loaded back: the target record keeps its own SSID, which differs from the bounded read's result whenever the two SSIDs differ |
| CredentialEnhanced.LegacyRoundTripAsWritten | src/AutoConnectCredentialEnhanced.h:73-103 | As written, converting any record to the legacy layout and reloading it into itself gives the same record; a refused 32-character SSID leaves the record's own SSID in place |
| CredentialEnhanced.LegacyTransferAsWritten | src/AutoConnectCredentialEnhanced.h:73-103 | As written, loading the legacy form into any record carries the SSID across when it is shorter than 32 characters or the password is empty |
| CredentialEnhanced.IndexOfSsid | src/AutoConnectCredentialEnhanced.h:158-161 | The lookup finds the first record with that SSID, and finds none exactly when no record has it |
| CredentialEnhanced.IndexOfOldest | src/AutoConnectCredentialEnhanced.h:171-174 | The chosen record has the smallest timestamp and every earlier record's timestamp is strictly larger |
| CredentialEnhanced.RemoveAt | src/AutoConnectCredentialEnhanced.h:175 | Erasing drops exactly one position and keeps the others in their relative order |
| CredentialEnhanced.UpsertUpdatesInPlace | src/AutoConnectCredentialEnhanced.h:163-166 | Re-adding a stored SSID overwrites that slot; the size and every other record are unchanged |
| CredentialEnhanced.UpsertEvictsOldest | src/AutoConnectCredentialEnhanced.h:167-179 | A new SSID at capacity erases exactly the first record with the smallest timestamp and appends the new record, keeping the size |
| CredentialEnhanced.UpsertAppends | src/AutoConnectCredentialEnhanced.h:179 | A new SSID below capacity is appended and nothing else changes |
| CredentialEnhanced.UpsertPreservesInvariant | src/AutoConnectCredentialEnhanced.h:157-181 | Accepting a valid record keeps the list within capacity, keyed by SSID and all-valid, and a lookup of its SSID then finds that record |
| CredentialEnhanced.EvictionExample | src/AutoConnectCredentialEnhanced.h:167-181 | With capacity 2, A at 100 and B at 200, adding C evicts A and leaves B then C |
| CredentialEnhanced.RemoveDeletesKey | src/AutoConnectCredentialEnhanced.h:238 | In a list keyed by SSID, erasing the found record leaves no record with that SSID and one record fewer |
| CredentialEnhanced.SsidsOf | src/AutoConnectCredentialEnhanced.h:252-254 | The copied names are the records' SSIDs, one per record, in list order |
| CredentialEnhanced.TimestampOf | src/AutoConnectCredentialEnhanced.h:258-268 | The comparator's key for a stored SSID is the timestamp of the record that holds it |
| CredentialEnhanced.InsertBy | src/AutoConnectCredentialEnhanced.h:257-271 | One sorting step adds exactly the new name to the list: a permutation step |
| CredentialEnhanced.InsertByKeepsOrder | src/AutoConnectCredentialEnhanced.h:257-271 | Inserting into a list ordered by non-increasing key keeps it ordered |
| CredentialEnhanced.SortByRank | src/AutoConnectCredentialEnhanced.h:257-271 | The sort returns a permutation of its input in non-increasing rank |
| CredentialEnhanced.PiecesFit | src/AutoConnectCredentialEnhanced.h:310-313 | Each of the four formatted pieces of a record is shorter than the 256-byte buffer and holds no terminator, so none is cut |
| CredentialEnhanced.ExportEmpty | src/AutoConnectCredentialEnhanced.h:303-317 | An empty store exports `{"credentials":[]}` |
| CredentialEnhanced.ExportExample | src/AutoConnectCredentialEnhanced.h:299-321 | A record "Home" on DHCP, used at 123 with 4 connections, exports as `{"credentials":[{"ssid":"Home","useStatic":false,"timestamp":123,"connectionCount":4}]}`, whatever its password |
| CredentialEnhanced.ExportShowsOnlyPublicFields | src/AutoConnectCredentialEnhanced.h:305-315 | Two lists whose records agree on SSID, mode, timestamp and count export the same text: passwords, BSSIDs, addresses and RSSI never reach it |
| CredentialEnhanced.ExportIgnoresPasswords | src/AutoConnectCredentialEnhanced.h:305-315 | Changing any stored password leaves the export unchanged |
| CredentialEnhanced.AppendNextEntry | src/AutoConnectCredentialEnhanced.h:305-315 | One loop pass extends the document by the separator and the entry of the next record |
| CredentialEnhanced.AppendEntry | src/AutoConnectCredentialEnhanced.h:306-314 | The builder's text grows by a comma when one is due, then the record's entry |
| CredentialEnhanced.AppendRecord | src/AutoConnectCredentialEnhanced.h:309-314 | The builder gains the brace, the four pieces and the closing brace, in order |
| CredentialEnhanced.AppendTwoFormatted | src/AutoConnectCredentialEnhanced.h:310-313 | Two formatted pieces that fit the buffer are appended whole, in order |
| CredentialEnhanced.AppendBraced | src/AutoConnectCredentialEnhanced.h:309-314 | Pieces that fit the format buffer are appended whole between braces |
| CredentialEnhanced.AutoConnectCredentialEnhanced.constructor | src/AutoConnectCredentialEnhanced.h:113-118 | A new store is empty and uninitialized, with the given capacity |
| CredentialEnhanced.AutoConnectCredentialEnhanced.LoadExistingCredentials | src/AutoConnectCredentialEnhanced.h:327-331 | Loading is a stub that always succeeds with an empty message |
| CredentialEnhanced.AutoConnectCredentialEnhanced.SaveCredentials | src/AutoConnectCredentialEnhanced.h:336-341 | Saving is a stub that always succeeds with an empty message |
| CredentialEnhanced.AutoConnectCredentialEnhanced.Initialize | src/AutoConnectCredentialEnhanced.h:125-140 | Always succeeds and leaves the store initialized with its records; a second call answers "Already initialized", and the flag never goes back |
| CredentialEnhanced.AutoConnectCredentialEnhanced.Find | src/AutoConnectCredentialEnhanced.h:158-161 | The find_if loop returns exactly the lookup's answer: the first record with that SSID, or none |
| CredentialEnhanced.AutoConnectCredentialEnhanced.FindOldest | src/AutoConnectCredentialEnhanced.h:171-174 | The min_element loop returns the first record with the smallest timestamp |
| CredentialEnhanced.AutoConnectCredentialEnhanced.AddCredential | src/AutoConnectCredentialEnhanced.h:145-184 | An invalid record returns its validation error and an uninitialized store INVALID_STATE, both with the list unchanged; otherwise the call succeeds, the list becomes the upsert of the record, and the store invariant holds |
| CredentialEnhanced.AutoConnectCredentialEnhanced.GetCredential | src/AutoConnectCredentialEnhanced.h:189-212 | Empty SSID gives INVALID_PARAMETER, an uninitialized store INVALID_STATE, an absent SSID CREDENTIAL_LOAD_ERROR; success exactly when a stored record has the SSID, and the record copied out is the first one with that SSID; on failure the caller's record is untouched |
| CredentialEnhanced.AutoConnectCredentialEnhanced.RemoveCredential | src/AutoConnectCredentialEnhanced.h:217-242 | Same error cases as lookup, each leaving the list unchanged; on success exactly the found record is erased, the others keep their order, and the SSID is gone |
| CredentialEnhanced.AutoConnectCredentialEnhanced.CopySsids | src/AutoConnectCredentialEnhanced.h:249-254 | The copy loop yields the stored SSIDs, one per record, in list order |
| CredentialEnhanced.AutoConnectCredentialEnhanced.GetAvailableSSIDs | src/AutoConnectCredentialEnhanced.h:247-274 | The listing is a permutation of the stored SSIDs ordered by non-increasing timestamp |
| CredentialEnhanced.AutoConnectCredentialEnhanced.ClearAll | src/AutoConnectCredentialEnhanced.h:279-286 | The list becomes empty and the call succeeds, initialized or not |
| CredentialEnhanced.AutoConnectCredentialEnhanced.GetCredentialCount | src/AutoConnectCredentialEnhanced.h:291-294 | The count is the number of records and never exceeds the capacity |
| CredentialEnhanced.AutoConnectCredentialEnhanced.ExportToJSON | src/AutoConnectCredentialEnhanced.h:299-321 | The output is `{"credentials":[`, the entries of all records in list order separated by commas, then `]}`; the call always succeeds |

## Left out

- `AutoFile` (src/AutoConnectRAII.h:21-95) is filesystem I/O.
- src/AutoConnectCoreEnhanced.hpp is not part of this model. It wraps the base portal class, heap probes, the radio and a real-time retry loop; its validation helpers only delegate to the sanitizer.
- src/AutoConnectJsonDefs.h is not part of this model. It is a wrapper over the JSON library and a PSRAM allocator.
- `ACMemoryStats` and `AC_CHECK_MEMORY` (src/AutoConnectError.h:97-128, 158-163) read the ESP heap, which is hardware telemetry.
- Mutexes and `lock_guard` are not modelled. Each store method is one atomic sequential step.
- `StringBuilder::writeTo` prints to an output stream. The `__FlashStringHelper` overload of `append` reads program memory. Neither is modelled.
- The clock is not modelled. `millis()` in `updateStats` and `TimeoutHelper` is an explicit `now` parameter.
- `MemoryPool`'s constructor takes `obtained`: whether `new uint8_t[_size]` (src/AutoConnectRAII.h:238) returned a buffer. The null branch at src/AutoConnectRAII.h:239-242 can only be reached where `new` returns null instead of throwing.
- `EstimateMemoryUsage` takes `sizeof(*this)` as a parameter. It does not model the `size_t` overflow of the sum, which cannot occur for a 32 KiB buffer and a small object.
- Destructors are not modelled as deallocation. Destroying a `SecureString` is modelled as its memset (`RAII.SecureString.Wipe`), and freeing memory is not modelled.
- Records are values. `SecureString` deletes its copy constructor and copy assignment (src/AutoConnectRAII.h:195-196). Copying an `EnhancedCredential` (src/AutoConnectCredentialEnhanced.h:165, 179, 210) is therefore ill-formed as written. The model copies records by value, as evidently intended.
- A record's SSID and password are terminator-free strings bounded by the SecureString capacities: at most 32 and 63 characters.
- Strings are sequences of bytes: each Dafny `char` stands for one byte, and multi-byte UTF-8 text is modelled byte by byte. Every length bound (`IsValidSSID`, `IsValidPassword`, `SsidText`, `PasswordText`, `ValidateStringLength`, the buffer capacities) therefore counts bytes, as `String::length()` and `strlen` do, only when each character of the input is one byte; the model does not restrict `char` to values below 256.
- `UpdateStats` and `FromLegacy` return the updated record rather than mutating it in place.
- The `ssid[32]` / `password[64]` layout of `station_config` is defined outside the shown files and is assumed.
- IP addresses are kept as four octets. The `uint32_t` byte order of the legacy fields is not modelled.
- `DhcpMode` abstracts the numeric values of `STA_DHCP` and `STA_STATIC`.
- `CredentialEnhanced.AutoConnectCredentialEnhanced.constructor` requires a capacity of at least 1. With 0, adding a record calls `erase` on the end iterator of an empty vector, which is undefined behaviour.
- `CredentialEnhanced.AutoConnectCredentialEnhanced.GetAvailableSSIDs` does not fix the order of SSIDs with equal timestamps. `std::sort` is unstable, so the source does not fix it either.
- `CredentialEnhanced.AutoConnectCredentialEnhanced.ExportToJSON` is not proved to produce valid JSON under RFC 8259 section 7. Backslashes and control characters in an SSID are not escaped.
- The performance fields of the advanced configuration (src/AutoConnectAdvancedConfig.h:217-221) are not modelled. No operation reads them.
- `SecurityConfig` and `DebugConfig` are kept as data only. The source gives them no operations.
- `isalnum` is taken in the "C" locale: ASCII letters and digits.

## Findings

| source | as written | input that shows it | evidently intended | confidence | as-written member | corrected member |
|---|---|---|---|---|---|---|
| src/AutoConnectRAII.h:251-253 | `(bytes + 3) & ~3` and `_offset + aligned_bytes > _size` are computed in 32-bit `size_t`, so both wrap | `allocate(0xFFFFFFFF)` on a 16-byte pool rounds to 0 and succeeds without reserving anything; `allocate(0xFFFFFFF8)` at offset 8 succeeds and rewinds the offset to 0, so later blocks overlap live ones | a request whose rounded size does not fit in the rest of the pool returns null and leaves the offset alone | not executed; the wrap follows from unsigned arithmetic on the 32-bit ESP targets | RAII.AllocateAsWrittenOverflows | RAII.MemoryPool.Allocate |
| src/AutoConnectCredentialEnhanced.h:91 | `String(reinterpret_cast<const char*>(legacy.ssid))` reads up to the first terminator in memory, but `toLegacy`'s `strncpy` leaves no terminator in the 32-byte field for a 32-character SSID, so the read continues into the password field | a record with a 32-character SSID and the password "password", converted with `toLegacy` and loaded with `fromLegacy` into a fresh record: the 40-character string is refused by `ssid.set`, and the fresh record keeps its empty SSID | the SSID is read within its 32-byte field, so every valid SSID survives the conversion | not executed; follows from the field size and `strncpy` semantics | CredentialEnhanced.LegacyFullSsidLost | CredentialEnhanced.LegacyRoundTrip |
