# llnwdebug resolver log, modelled in Dafny

The `llnwdebug` CoreDNS plugin shows a client which DNS resolver resolved a unique
hostname for it. When an A or AAAA query for the hostname arrives, the plugin
records the resolver's address and the query's EDNS0 Client Subnet (ECS).
When the client later fetches that hostname over HTTP, the plugin returns what it recorded.

This project models the plugin's core in `plugin/llnwdebug/llnwdebug.go`:

- `wrappers.dfy` (`Wrappers`): the `Option` type used for Go's nil and error results (`IsEdns0`, `SplitHostPort`).
- `decimal.dfy` (`Decimal`): the decimal text Go's `%d` prints. It is proved to read back to the same number.
- `ecs.dfy` (`Ecs`): `edns0Subnet`. It scans the OPT record's options in order. For the first
  client-subnet option (section 6 of RFC 7871) it returns `"<address>/<prefix>"`, and otherwise the sentinel `"-"`.
  The address text is opaque. `ParseCidr` is an independent inverse, and the printed text is proved to read back to the option's address and prefix.
- `store.dfy` (`Store`): the resolver log as values. `Recorded` is one `recordResolver` call on the map.
  `RecordAll` is a run of such calls. `Lookup` is the read that `ServeHTTP` does, and `ToJson`/`ResponseJson` give the JSON shape of its answer.
  `Recorded` takes the log capacity as a parameter:
  - `AS_WRITTEN_CAPACITY` (11) is the code's guard `len(l.log) > 10`;
  - `MAX_ENTRIES` (10) is what the abuse test expects.
- `llnwdebug.dfy` (`LlnwDebug`): the `LLNWDebug` object as a class with the `dnsRequests` map
  field. `RecordResolver` is `recordResolver` with the guard written as in the code. `Answers` is the answer loops,
  and `ServeDNS` is the decision to record, which happens once per A/AAAA query after the answers are built.
  The class invariant `Valid()` says every stored log holds between 1 and 11 sightings.

Clock readings (`time.Now()`) are an `int` parameter `now`, with Go's zero time as 0.
The result of `net.SplitHostPort` is a parameter, `None` when splitting failed. The resolver is then `""`, as Go returns.
The ECS text that the metadata closure yields is also a parameter of `ServeDNS`.
The mutex makes every method atomic, so each is modelled as one sequential step.

The model follows the code where the code and its tests disagree:
- The code drops a call only when the log already holds more than 10 sightings, so a log can reach 11.
  The abuse test (plugin/llnwdebug/llnwdebug_test.go:43-69) expects ten sightings and marks the eleventh `// Ignored`; see Findings.
Two further facts about the code:
- The extractor returns the sentinel `"-"` when there is no subnet option. `ServeDNS` maps it to `""` before recording, so JSON omits the field.
- No sweep or cleanup operation is defined in the code modelled here.

## Model

| member | source | states |
|---|---|---|
| `Decimal.Text` | plugin/llnwdebug/llnwdebug.go:57 | the `%d` text of the netmask is non-empty and all digits, and starts with '0' only for zero |
| `Decimal.ValueOfText` | plugin/llnwdebug/llnwdebug.go:57 | reading the decimal text back yields the number printed |
| `Ecs.FirstSubnet` | plugin/llnwdebug/llnwdebug.go:54-59 | the found index holds a client-subnet option and no earlier option is one; none is found only when no option is one |
| `Ecs.Edns0Subnet` | plugin/llnwdebug/llnwdebug.go:52-62 | the result is `"-"` exactly when there is no OPT record or no subnet option in it; otherwise it is the first subnet option's `address/decimal-netmask` |
| `Ecs.SubnetTextParses` | plugin/llnwdebug/llnwdebug.go:57 | splitting `address/mask` text at its last slash gives back the option's address text and netmask |
| `Ecs.Edns0SubnetParses` | plugin/llnwdebug/llnwdebug.go:52-62 | the extractor's result fails to parse exactly when no subnet option is carried, and otherwise parses to the first option's address and netmask |
| `Store.RecordAppends` | plugin/llnwdebug/llnwdebug.go:127-133 | with room left, the hostname's log becomes the old log (the zero log when the key was missing) plus exactly the new sighting at the end, stamped `now` |
| `Store.RecordDropsWhenFull` | plugin/llnwdebug/llnwdebug.go:128-130 | on a full log the whole map is unchanged, timestamp included |
| `Store.RecordFrame` | plugin/llnwdebug/llnwdebug.go:127-133 | when the capacity is positive, the recorded hostname is present afterwards; no other key is added or removed, and every other hostname's log is unchanged |
| `Store.RecordPreservesBound` | plugin/llnwdebug/llnwdebug.go:128-132 | if every stored log holds 1 to `capacity` sightings before a call, that still holds after it |
| `Store.RecordAllKeepsFirst` | plugin/llnwdebug/llnwdebug.go:127-133 | a run of calls on one hostname yields the old log followed by the new sightings in call order, cut at the capacity |
| `Store.RecordAllStamps` | plugin/llnwdebug/llnwdebug.go:131 | after a run of calls on a log with room, the hostname is stored, stamped with the clock reading of the last accepted call |
| `Store.RecordAllFullUnchanged` | plugin/llnwdebug/llnwdebug.go:128-130 | any run of calls on a full log leaves the map as it was |
| `Store.LookupUnknown` | plugin/llnwdebug/llnwdebug.go:149-154 | a Host whose dotted name was never recorded looks up as an empty Resolvers list |
| `Store.LookupAfterRecord` | plugin/llnwdebug/llnwdebug.go:149-150 | after recording under `Host + "."` with room left, the lookup of `Host` is the previous lookup plus the new sighting |
| `Store.LookupUnaffected` | plugin/llnwdebug/llnwdebug.go:149-150 | recording under another name, or a dropped call, does not change what a lookup returns |
| `Store.LookupJson` | plugin/llnwdebug/llnwdebug.go:138-154 | on a store whose logs are all non-empty, the Resolvers field is omitted (the answer is `{}`) exactly when the Host's dotted name was never recorded; otherwise it renders one item per stored sighting, in order |
| `Store.RecordStampNonZero` | plugin/llnwdebug/llnwdebug.go:131 | a call accepted with a non-zero clock reading leaves the hostname stored with a non-zero timestamp, as the test at plugin/llnwdebug/llnwdebug_test.go:81-83 checks |
| `Store.AbuseAsWrittenKeepsEleven` | plugin/llnwdebug/llnwdebug.go:128 | with the guard as written, the abuse test's eleven calls leave eleven sightings, the last being 10.0.0.11 |
| `Store.AbuseCappedKeepsTen` | plugin/llnwdebug/llnwdebug_test.go:43-69 | with capacity ten, the abuse test's calls leave exactly its first ten sightings, in order |
| `Store.CappedKeepsFirstTen` | plugin/llnwdebug/llnwdebug_test.go:43-69 | with capacity ten, any run of calls on a new hostname keeps exactly its first ten sightings (fewer if fewer calls) |
| `LlnwDebug.StoredEcsOfQuery` | plugin/llnwdebug/llnwdebug.go:103-107 | a query without a subnet option is stored with empty ECS text, so JSON omits the field; a query with one keeps the extractor's text |
| `LlnwDebug.LLNWDebug.constructor` | plugin/llnwdebug/llnwdebug.go:19-24 | a new plugin object has the given answer addresses and an empty map |
| `LlnwDebug.LLNWDebug.RecordResolver` | plugin/llnwdebug/llnwdebug.go:121-134 | the new map is `Recorded` with capacity `ABUSE_GUARD + 1`: unchanged when the log already holds more than `ABUSE_GUARD` sightings, otherwise the entry becomes the old log plus the new sighting, stamped `now`, and no other key changes; the 1-to-11 bound is kept |
| `LlnwDebug.LLNWDebug.Answers` | plugin/llnwdebug/llnwdebug.go:83-100 | an A query gets one record per `answers4` address, and an AAAA query one per `answers6` address, in configured order and all named `qname`; other types get none |
| `LlnwDebug.LLNWDebug.ServeDNS` | plugin/llnwdebug/llnwdebug.go:64-111 | A/AAAA queries get an authoritative reply with the shaped answers and exactly one record call, with `"-"` mapped to `""`. The resolver is `""` when the remote address does not split. Other types are neither answered nor recorded. The result code is always success |

## Left out

- `Cleanup` and `NewLLNWDebug` are called by the tests but are not part of this model, because no file modelled here defines them. The constructor stands in for `NewLLNWDebug(nil, nil)` only by starting with an empty map. The sweep and the reaper are not modelled.
- `Metadata` and `getECS`: context-metadata plumbing with a lazily cached closure. `ServeDNS` takes the ECS text they yield as a parameter, and `StoredEcsOfQuery` covers the case where that text is `Edns0Subnet` of the query.
- `handleRedirect` and `setup.go`: random tokens, HTTP redirects, listeners and plugin registration. `setup.go` also uses an older `map[string]string` type for the map.
- DNS message handling belongs to the DNS library and is not modelled:
  - `SetReply` copying the id and question into the reply (the query's class, `state.QClass()`, is a parameter `qclass` that every answer record carries);
  - `w.WriteMsg` and its errors;
  - `IsEdns0` choosing among OPT records (`Msg.opt` is its result);
  - `net.IP.String` (the address is opaque text);
  - `dns.TypeToString` (only the A and AAAA labels are modelled).
- JSON encoding beyond the field shape (`ToJson`, `ResponseJson`) is not modelled: the bytes, the `Content-Type` header and the client-address parsing.
- The `printf` logging in `ServeDNS` and `ServeHTTP`: output only.
- `sync.Mutex`: concurrency is not modelled; every method is one atomic step.
- `LlnwDebug.LLNWDebug.ServeDNS`: uses the capacity as written (`AS_WRITTEN_CAPACITY`), not the corrected `MAX_ENTRIES` from Findings, so that the plugin object behaves as the code does. The corrected cap is stated and proved only on the value-level `Store` functions.

## Findings

| source | as written | input that shows it | evidently intended | confidence | as-written member | corrected member |
|---|---|---|---|---|---|---|
| plugin/llnwdebug/llnwdebug.go:128 | `len(l.log) > 10` refuses a call only once the log already holds 11 sightings, so the 11th is stored | the abuse test's eleven calls for one hostname (10.0.0.1 to 10.0.0.11) leave 11 sightings, ending with 10.0.0.11 | at most ten sightings, with the eleventh ignored, as plugin/llnwdebug/llnwdebug_test.go:43-69 expects (the guard would be `>= 10`) | high; not executed | `Store.AbuseAsWrittenKeepsEleven` | `Store.CappedKeepsFirstTen` |
