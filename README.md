# UTM builder, modelled in Dafny

The UTM builder is a small desktop tool. It takes a landing-page URL and a set
of UTM fields (`utm_source`, `utm_medium`, `utm_campaign` and optional extras).
It normalizes them, merges them into the URL's existing query string, and
keeps a short history of the URLs it has generated.

This project models the logic of `utm_builder.py`:

- `normalize_pair`: strip, optional lower-casing, and the space mode
  (`underscore`, `dash`, `keep`).
- `build_utm_url`:
  - the two base-URL errors;
  - the `https://` scheme inference;
  - collecting the existing query into a dict;
  - filtering and normalizing the supplied pairs;
  - the `override_existing` / `merge_existing` policy;
  - re-encoding the query.
- `App._validate_required`: which required UTM keys are missing or empty.
- `App._add_history`: the most-recent-first, de-duplicated history, bounded to
  20 entries.

The modules are:

- `Wrappers`: `Option` and `Result`.
- `Seqs`: distinctness, first index.
- `Text`: Python's `str.strip`, `lower`, `replace` and `in`, over `seq<char>`.
- `Normalize`: `normalize_pair`.
- `OrderedDict`: a Python insertion-ordered dict, as the sequence of its
  items.
  - `d[k] = v` is `Put`: an existing key keeps its place, a new key is
    appended.
  - `d.update(...)` and an assignment loop are `PutAll`.
  - `d.get(k)` is `Get`.
- `QueryString`:
  - `parse_qsl(..., keep_blank_values=True)`;
  - `urlencode(..., quote_via=quote_plus)`;
  - the round trip between the two.
- `Urls`: `urlparse` and `urlunparse`, restricted to the URLs the builder
  handles, with their round trip.
- `Builder`: `build_utm_url`.
  - It is specified by functions: `Rebuild`, `BuildUrl`, `FinalParams`,
    `Merge`.
  - It is implemented by the method `BuildUtmUrl`. Its loops fill the
    `existing`, `utm` and `final` dicts as the Python code does, and their
    invariants tie each loop to the specification functions.
- `App`: `_validate_required` as a function, and the history as a class
  `History` whose `entries` field `Add` updates in place.

Notes on what the code does, which the model follows:

- `build_utm_url` rejects only the empty string as an empty base. A base of
  only whitespace is not rejected; the GUI strips the base before calling
  (line 238).
- A base with no "://" and none of '/', '?', '#' is accepted as a bare host,
  a port such as "example.com:8080" included (`Builder.BareHostAccepted`),
  apart from the bracket and NFKC cases listed under "Left out".
  "utm_source=foo" therefore yields a URL with host "utm_source=foo"; it
  is not rejected as invalid (`Builder.QueryLikeBaseAccepted`).
- Existing query parameters with blank values are kept when merging
  (`keep_blank_values=True`). Only supplied pairs are filtered for blank
  values.
- The supplied pairs are the items of a dict, so their raw keys are distinct.
  The model takes them as a sequence of pairs; given repeated raw keys, it
  processes every item, where a dict would already have kept only the last.
- When the existing query repeats a name, the last value wins and the name
  keeps the place of its first occurrence (plain dict assignment, lines
  78-80).

## Model

| member | source | states |
|---|---|---|
| Text.Strip | utm_builder.py:59 | `str.strip()`: neither end of the result is whitespace; a string already without outer whitespace is unchanged; the result is empty exactly when the input is all whitespace |
| Text.StripIsSlice | utm_builder.py:59 | what `strip()` removes is whitespace at both ends: the result is a slice of the input with only whitespace before and after it |
| Text.Lower | utm_builder.py:61 | `str.lower()` on ASCII: same length, no upper-case letter left, a character changes exactly when it was upper case, and each upper-case letter becomes the matching lower-case letter; whitespace stays whitespace |
| Text.Replace | utm_builder.py:63-65 | `str.replace(" ", c)`: same length, every occurrence replaced and nothing else changed, none of the old character left |
| Text.Occurs | utm_builder.py:73 | `"://" in base_url` holds exactly when the pattern starts at some index |
| Normalize.ApplyCase | utm_builder.py:60-61 | same length; outer whitespace is not introduced; under force_lower each character is replaced by its lower-case form (so no upper-case letter is left), otherwise the string is unchanged |
| Normalize.ApplySpaceMode | utm_builder.py:62-66 | same length; outer whitespace is not introduced; no upper-case letter is introduced; each space becomes '_' under underscore and '-' under dash, and every other character stays, so no space is left in those modes; under any other mode (keep) the string is unchanged |
| Normalize.Transform | utm_builder.py:56-67 | None passes through; the result has no outer whitespace; it is empty exactly when the input is blank; it is lower case under force_lower; it holds no space under the underscore or dash mode; under keep without force_lower it is the stripped input; character by character, each space of the stripped input becomes '_' or '-' under those modes and every other character is lower-cased under force_lower and otherwise kept |
| Normalize.NormalizePair | utm_builder.py:55-68 | each component is None exactly when its input is; equal inputs give equal outputs; neither output has outer whitespace |
| Normalize.TransformFixedPoint | utm_builder.py:56-67 | a stripped string with no upper-case letter and no space is left unchanged by every mode |
| Normalize.TransformIdempotent | utm_builder.py:56-67 | normalizing twice gives the same as normalizing once |
| OrderedDict.Get | utm_builder.py:234 | `dict.get`: a value exactly when the key is present, and that value is stored under the key |
| OrderedDict.AppendNew | utm_builder.py:78-80 | the key order of a dict after assignments: old keys first and unchanged, then each new key once, in order of first assignment |
| OrderedDict.Put | utm_builder.py:80 | `d[k] = v`: an existing key keeps its place, a new key goes last; k maps to v and every other key keeps its value; distinct keys stay distinct |
| OrderedDict.PutAll | utm_builder.py:93-95 | `d.update(ps)`: keys are the old keys then the new ones in first-occurrence order; a key that ps assigns takes the last value ps gives it, and any other key keeps its value |
| OrderedDict.AppendNewAbsorbs | utm_builder.py:90-95 | collapsing the update dict first (utm) does not change where its keys land in the merged dict |
| OrderedDict.CollapseDistinct | utm_builder.py:78-80 | assigning items whose keys are already distinct into an empty dict gives those items back |
| QueryString.QuotePlus | utm_builder.py:98 | `quote_plus` never writes '&', '=' or '#', and writes no '+' for input without spaces |
| QueryString.QuotePlusOfPlain | utm_builder.py:98 | a string of unreserved characters and spaces is written unchanged except that each space becomes '+' |
| QueryString.EncodeQuery | utm_builder.py:98 | the encoded query holds no '#', and is empty exactly when there are no items |
| QueryString.UnquoteQuoted | utm_builder.py:98 | `unquote_plus(quote_plus(s)) == s` for every string |
| QueryString.DecodeQuery | utm_builder.py:79 | `parse_qsl(q, keep_blank_values=True)` (with `DecodePieces`, `DecodePiece`, `Split`, `UnquotePlus`): the empty query gives no items; a query without '&' gives the one decoded item; there are never more items than '&'-separated pieces. Its inverse property is `DecodeEncodeQuery` |
| QueryString.DecodeEncodedPair | utm_builder.py:79 | `parse_qsl` reads back one encoded `name=value` item |
| QueryString.DecodeEncodeQuery | utm_builder.py:79 | `parse_qsl(urlencode(items))` gives back the items, in order |
| Urls.Parse | utm_builder.py:73 | `urlparse`: the scheme is empty or a valid lower-case scheme; the host holds none of '/', '?', '#'; the path holds no '?' or '#'; the query holds no '#'; with a host, the path is empty or starts with '/' |
| Urls.ParseHttpsPrefixed | utm_builder.py:73 | parsing "https://" + rest gives scheme https and the host `rest` up to its first '/', '?' or '#' |
| Urls.Unparse | utm_builder.py:100 | `urlunparse`: with a host, the scheme is followed by "://", and without a scheme the string starts with "//". Its inverse property is `ParseUnparse` |
| Urls.ParseUnparse | utm_builder.py:99-100 | `urlparse(urlunparse(u)) == u` for every record urlparse can return with a host |
| Builder.Prepare | utm_builder.py:73 | the string given to urlparse always contains "://" |
| Builder.ExistingParams | utm_builder.py:77-80 | the collected existing query has distinct keys, and is empty when merge_existing is off |
| Builder.Candidate | utm_builder.py:85-89 | a supplied pair is skipped exactly when its raw value is empty or its key or value is blank; a kept pair is the normalized key and value, both non-empty and stripped |
| Builder.AdmittedMembers | utm_builder.py:90-91 | a candidate is admitted exactly when override_existing is on or its key is not in the existing dict |
| Builder.Utm | utm_builder.py:83-91 | the utm dict has distinct keys; it maps a key to the last candidate value when the policy admits the key, and lacks the key otherwise |
| Builder.Merge | utm_builder.py:93-95 | the merged dict keeps the existing keys first, in their places, then the candidate keys it lacks in supply order; distinct keys stay distinct |
| Builder.Rebuild | utm_builder.py:70-99 | fails with EmptyBaseUrl exactly on "" and with InvalidBaseUrl exactly when the parsed host is empty; otherwise the record is well formed, every component of the parsed base but the query is kept, and the new query decodes to the final parameters |
| Builder.BuildUrl | utm_builder.py:70-100 | the same two errors; succeeds exactly when `Rebuild` does; the returned string parses back to the record `Rebuild` describes |
| Builder.CandidateKept | utm_builder.py:84-91 | every pair that survives filtering is among the candidates |
| Builder.CollectExisting | utm_builder.py:77-80 | the loop over `parse_qsl` builds exactly the existing dict |
| Builder.CollectUtm | utm_builder.py:83-91 | the loop over the pairs builds exactly the utm dict of admitted candidates |
| Builder.UpdateCopy | utm_builder.py:93-95 | `final = existing.copy(); final.update(utm)` |
| Builder.BuildUtmUrl | utm_builder.py:70-100 | fails with EmptyBaseUrl exactly on "", fails with InvalidBaseUrl exactly when the parsed host is empty, and otherwise returns the URL `BuildUrl` specifies |
| Builder.AdmittedKeyOrder | utm_builder.py:90-91 | candidates the policy holds back do not change the merged key order |
| Builder.AdmittedGet | utm_builder.py:90-91 | utm maps a key to its last candidate value when the policy admits the key, and lacks it otherwise |
| Builder.MergeValues | utm_builder.py:90-95 | in the merged dict a key takes the last candidate value when the policy admits it, and keeps its existing value otherwise |
| Builder.FinalParamsShape | utm_builder.py:77-95 | the final query parameters: the same shape, with the existing part collapsed from the decoded query (first position, last value) |
| Builder.ExistingValueKept | utm_builder.py:90 | with override_existing off, an existing key keeps its existing value |
| Builder.CandidateValueWins | utm_builder.py:90 | with override_existing on, a candidate key takes the last candidate value |
| Builder.LaterPairWins | utm_builder.py:91 | of two pairs that normalize to the same key, the later one sets the value |
| Builder.MergeDisabledDropsQuery | utm_builder.py:77-80 | with merge_existing off, the query holds exactly the candidate keys with their last values |
| Builder.SkippedPairContributesNothing | utm_builder.py:85-89 | inserting a pair with an empty raw value or a blank key or value anywhere does not change the result |
| Builder.SchemeInference | utm_builder.py:71-75 | "https://" is prepended exactly when "://" is absent; then the scheme is https, the host is the base up to its first '/', '?' or '#', and the base is invalid exactly when it starts with one of those |
| Builder.BareHostAccepted | utm_builder.py:73-75 | a base with no "://" and none of '/', '?', '#' is accepted, and all of it becomes the host |
| Builder.QueryLikeBaseAccepted | utm_builder.py:73-75 | "utm_source=foo" is accepted with host "utm_source=foo" |
| Builder.RebuildIsStable | utm_builder.py:70-100 | rebuilding a generated URL that has a scheme, with no pairs and merging on, returns the same URL |
| Builder.SchemelessRebuildRejected | utm_builder.py:70-75 | a generated URL with a host but no scheme, and no "://" anywhere in it, is rejected as an invalid base when built again |
| App.Missing | utm_builder.py:233-235 | a key is reported exactly when it is listed and absent or empty; a list without repeats gives a report without repeats |
| App.MissingInOrder | utm_builder.py:234 | the reported keys follow the order of the list |
| App.ValidateRequired | utm_builder.py:233-235 | a required key is reported exactly when it is absent or empty; reports have no repeats and follow the order of REQUIRED_KEYS; nothing is reported exactly when every required key has a non-empty value |
| App.RemoveFirst | utm_builder.py:345-346 | `list.remove`: unchanged when the entry is absent, one shorter when present |
| App.RemoveFirstIsSplice | utm_builder.py:346 | `list.remove` leaves everything before the first occurrence followed by everything after it |
| App.Without | utm_builder.py:343-348 | the old entries other than url, in order |
| App.RemoveFirstOfDistinct | utm_builder.py:345-346 | on distinct entries, removing the first occurrence removes every occurrence |
| App.Pushed | utm_builder.py:343-348 | the new history is non-empty, at most 20 long, with url first |
| App.PushedShape | utm_builder.py:343-348 | url is first and occurs once; entries stay distinct; at most 20 are kept; the rest are the old entries without url, in order, truncated |
| App.PushedTopIsIdle | utm_builder.py:343-348 | re-adding the URL already on top leaves the history unchanged |
| App.History.constructor | utm_builder.py:109 | the history starts empty and valid |
| App.History.Add | utm_builder.py:343-348 | the new entries are `Pushed(old entries, url)`: url on top and once, distinct, at most 20, the old order behind |
| App.NormalKeyIsCandidate | utm_builder.py:84-91 | a key already stripped, lower case and without spaces, holding a non-empty stripped value, is kept as a candidate under its own name |
| App.RequiredKeysReachQuery | utm_builder.py:233-264 | when validation reports nothing and the values are stripped, every required key appears in the generated query, whatever the options |

## Left out

- The Tkinter user interface is not modelled. This covers widget layout, dialogs, clipboard, browser opening, menu bindings and `_refresh_history_listbox`. It is presentation only.
- Preset loading and saving, and history export, are not modelled. They are file and JSON I/O.
- `main` and the macOS-specific calls are not modelled. They are platform glue.
- Text.Lower: lower-cases only ASCII A-Z. Python's `str.lower` also folds non-ASCII letters; Unicode case tables are outside the model.
- QueryString.QuotePlus: non-ASCII characters are kept literally rather than encoded as UTF-8 percent escapes; `%XX` decodes to a single character. Byte-level encoding is outside the model.
- Urls.Parse: models only what these URLs need.
  - Not modelled: urlsplit's removal of leading C0 controls, spaces, tabs and newlines.
  - Not modelled: IPv6 bracket validation and port checks.
  - Not modelled: splitting `;params` off the last path segment.
  - Not modelled: the scheme-specific `uses_netloc` rules of urlunparse.
  - `;` stays in the path, so params are always empty.
- Urls.Unparse: models only records with a network location. `build_utm_url` returns nothing else, because it rejects an empty host.
- Builder.BuildUtmUrl: differs from Python on four kinds of base URL, all coming from `urlparse`. Non-ASCII characters in the pairs, and %-escaped UTF-8 in the base query, also give a different query string, as the QueryString.QuotePlus line says ("utm_campaign=여름" in the model, "utm_campaign=%EC%97%AC%EB%A6%84" in Python).
  - Python raises ValueError for a host with an unbalanced '[' or ']' (such as "ex[ample.com"), or a non-ASCII host whose NFKC form adds '/', '?', '#', '@' or ':'. The model has no such third failure and returns Success there.
  - Python strips leading whitespace before parsing; the model does not, so it rejects " https://example.com" as invalid where Python accepts it.
  - Python removes embedded tabs and newlines; the model keeps them.
  - Python splits an empty `;params` off the last path segment and `urlunparse` then drops it. For "example.com/a;" Python returns "https://example.com/a?utm_source=…"; the model keeps the ';' and returns "https://example.com/a;?utm_source=…".
- Builder.RebuildIsStable: holds only for URLs with a scheme. A base such as "//example.com/?r=http://x" is accepted with no scheme, and its query is re-encoded to "r=http%3A%2F%2Fx". The URL built from it then holds no "://" and starts with "//", so building from it again fails with InvalidBaseUrl (`Builder.SchemelessRebuildRejected`).
- `urlencode(..., doseq=True)` with list values is not modelled: every value here is a string.
- Normalizing a non-string key or value is not modelled. Python would raise AttributeError there, and every input in the model is a string.
- The differences between Python versions in `urllib.parse` are not modelled.
