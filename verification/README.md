# Web Page Text Processor popup — a Dafny model

The browser-extension popup in `popup.js` reads text from the active tab (the
selection, or the page's main content), sends it to the OpenRouter completion
endpoint for translation into Persian and/or summarisation, and can export the
page text and the result as a Markdown file. It also keeps a list of API keys
and a selected key in synced browser storage.

This project models the decision logic inside that glue code as pure Dafny
functions over immutable values:

- `KeyStore` — `ApiKeyManager`: storage is a value
  `Storage(apiKeys, selectedApiKey)` whose two entries may be absent, and
  `getSavedKeys`, `saveKey`, `deleteKey`, `getSelectedKey` and
  `setSelectedKey` are functions from storage to storage (and a result).
  The invariant `Valid` holds that the list has no duplicates and no empty
  key, and that a selection names a saved key.
- `Extraction` — `extractPageContent` over an abstract page: the rendered
  text of the article and main elements when they exist, and the texts of the
  paragraph and heading elements in document order.
- `Client` — the part of `sendToOpenRouter` and `processText` that is not I/O:
  choosing the credential, building the prompt and request body, and
  classifying the HTTP response (status, `ok` flag and parsed JSON body) into
  the returned content or an error.
- `Markdown` — the exported document and the `saveAsMarkdown` sequence of
  checks; `Slug` — the file-name sanitiser and the file name.
- Support modules: `Wrappers` (Option/Result), `Seqs` (`filter`, `join`,
  subsequences), `Text` (`trim`, ASCII case mapping), `Json` (parsed JSON
  values with JavaScript property access and truthiness) and `Errors` (the
  error kinds with the messages the popup shows).

Three behaviours of the code are easy to misread:

- A failed HTTP response never shows the remote error message. The code
  always reports `API request failed (<status>)…`, because the `API Error` it
  throws is caught by the `catch` right after it (see Findings).
- The sanitised title keeps its trailing dash, so the title `My Title!!` from
  `Example.COM` becomes `my-title--example.com-2024-01-01.md`
  (`Slug.FilenameExample`).
- The saved keys are an ordered list with a membership check before each
  append, not a set.

The second API-key check in `sendToOpenRouter` (popup.js:249-251) can never
fire: the first check has already thrown for an empty key. `Client.Prepare`
has a single credential check, and `Client.Credential` promises a non-empty
key on success.

## Model

| member | source | states |
|---|---|---|
| KeyStore.SavedKeys | popup.js:130-133 | An absent `apiKeys` entry reads as the empty list; a stored list reads as itself |
| KeyStore.SelectedKey | popup.js:160-163 | An absent selection reads as the empty string; a stored one reads as itself |
| KeyStore.SaveKey | popup.js:135-146 | Returns true exactly when the key is non-empty and not yet saved. On false, storage is unchanged. On true, the list is the old list with the key appended and the key is selected |
| KeyStore.DeleteKey | popup.js:148-158 | The key no longer occurs in the list. Every other key keeps its multiplicity and the survivors keep their order. The selection is removed exactly when `getSelectedKey` equals the key, otherwise it is unchanged |
| KeyStore.SetSelectedKey | popup.js:165-167 | The selection becomes the key, with no membership check; the list is untouched |
| KeyStore.EmptyIsValid | popup.js:130-133 | Fresh storage satisfies the invariant and reads as no keys and no selection |
| KeyStore.SaveKeyPreservesValid | popup.js:135-146 | `saveKey` keeps the list free of duplicates and empty keys, and keeps the selection among the saved keys |
| KeyStore.SaveKeyTwiceRefused | popup.js:139-145 | Saving the same key again returns false and leaves storage as it is |
| KeyStore.DeleteKeyPreservesValid | popup.js:148-158 | `deleteKey` keeps the invariant: the filtered list still has no duplicates, and a surviving selection is still saved |
| KeyStore.DeleteAbsentKeyIsNoop | popup.js:148-158 | On a valid store, deleting an unsaved key leaves both the list and the stored selection unchanged |
| KeyStore.DeleteUnsavedSelectedKey | popup.js:148-167 | Once `setSelectedKey` has selected an unsaved key, deleting that key clears the selection and leaves the list alone |
| KeyStore.DeleteSavedKeyShortens | popup.js:148-151 | On a duplicate-free list, deleting a saved key removes exactly one entry |
| KeyStore.DeleteUndoesSave | popup.js:135-158 | Deleting a key that was just saved restores the previous list and leaves no selection |
| KeyStore.DeleteKeyIdempotent | popup.js:148-158 | Deleting a key twice has the same effect as deleting it once |
| KeyStore.SetSelectedKeyPreservesValid | popup.js:214-218 | Selecting a saved key, as the drop-down does, keeps the invariant |
| Seqs.Filter | popup.js:150 | An element is in the result exactly when it is in the input and passes the test; the result is no longer than the input |
| Seqs.FilterOrder | popup.js:150 | The filtered list is a subsequence of the input: survivors keep their order |
| Seqs.FilterCounts | popup.js:150 | An element that passes keeps its number of occurrences, and one that fails has none |
| Seqs.Join | popup.js:119 | `join` of no parts is empty. Otherwise its length is the parts' total length plus one separator between each pair, and it starts with the first part. For non-empty parts, it is empty exactly when there are no parts |
| Seqs.JoinSnoc | popup.js:116-119 | Joining one more part appends the separator and that part |
| Text.Trim | popup.js:240 | The result is the input with its leading whitespace cut, up to a suffix of whitespace. It neither starts nor ends with whitespace, and it is empty exactly when the input is all whitespace |
| Text.TrimIdempotent | popup.js:240 | Trimming twice equals trimming once |
| Extraction.Utf16Length | popup.js:118 | A string's JavaScript `length` lies between its number of characters and twice that. It equals the number of characters when all lie in the Basic Multilingual Plane, and twice that when none do |
| Extraction.Utf16LengthAppend | popup.js:118 | The code-unit length of a concatenation is the sum of the parts' lengths, so each character counts on its own |
| Extraction.LongBlocks | popup.js:116-118 | Keeps exactly the blocks longer than 50 UTF-16 code units, in document order: a long block keeps its number of occurrences, duplicates included, and a short one has none |
| Extraction.Extract | popup.js:109-126 | An article's text is returned, even when empty, whatever else the page holds. Otherwise a main element's text is returned. Otherwise the result fails with "No suitable content" exactly when no block is longer than 50 |
| Extraction.ExtractAppendBlock | popup.js:116-125 | Without article or main, the text is the long blocks in order, joined by blank lines. A short block added at the end changes nothing; a long one is appended after a blank line, or becomes the whole text when there was none |
| Extraction.NoLongBlocksFails | popup.js:116-123 | A page with no article, no main and no block over 50 code units fails with "No suitable content" |
| Client.Credential | popup.js:239-244 | A non-empty selected key is used as is. Otherwise the trimmed input is used, and it fails with the missing-key error exactly when the input is all whitespace. A key that is used is never empty |
| Client.BuildPrompt | popup.js:254-267 | Fails with "Invalid action" exactly for actions other than `translate`, `summary` and `translate-summary`. Each of those three always succeeds, and its prompt is that action's fixed instruction followed by the text unchanged, and the instruction ends in `:\n` |
| Client.ParseBuildPrompt | popup.js:254-264 | The prompt can be read back into the action and the text it was built from |
| Client.PromptInjective | popup.js:254-264 | Equal prompts come from the same action and the same text |
| Client.RequestBodyFields | popup.js:269-278 | The request body carries the model, a one-element message list and `stream: false` |
| Client.UserMessageFields | popup.js:272-275 | The single message has role `user` and the prompt as its content |
| Client.Prepare | popup.js:238-267 | The credential is checked before the action: a missing key gives `MissingApiKey` whatever the action, and with a usable key an unknown action gives "Invalid action". A failure is one of those two errors. On success, the request carries the chosen key and the body for that action's prompt |
| Client.PrepareReadBack | popup.js:254-278 | A prepared request's body, read as the endpoint reads `messages[0].content`, gives back a prompt that parses to the very action and text the request was prepared from |
| Client.FirstMessage | popup.js:306-310 | A message is found exactly when `data.choices`, `data.choices[0]` and `data.choices[0].message` are each truthy, and it is that `message` |
| Client.Classify | popup.js:293-310 | A non-ok response fails with the status message whatever its body. An ok response fails if its body does not parse or is `null`. Otherwise it fails with "Invalid response format" unless `choices[0].message` is truthy, in which case its `content` is returned unchecked |
| Client.ClassifyCompletion | popup.js:305-310 | An ok response in the endpoint's completion shape yields its content |
| Client.ClassifyIgnoresFailureBody | popup.js:296-302 | Two non-ok responses with the same status have the same outcome, and it is a failure |
| Client.ClassifyMissingChoices | popup.js:305-307 | An ok object body without `choices` is an invalid format |
| Client.ClassifyNoFirstChoice | popup.js:305-307 | An ok body whose `choices` array is empty, or whose first choice is falsy, is an invalid format |
| Client.ClassifyNoMessage | popup.js:305-307 | An ok body whose first choice has no truthy `message` is an invalid format, whatever other choices follow |
| Client.ClassifyContentUnchecked | popup.js:305-310 | When the first choice's `message` is truthy, its `content` is returned as it is, with no check on its type or presence |
| Client.ClassifyMessageWithoutContent | popup.js:305-310 | `{"choices":[{"message":{}}]}` succeeds with `undefined` rather than failing |
| Client.ClassifyIntended | popup.js:296-302 | The corrected error path. On an ok response it matches `Classify`. On a non-ok response, an unparsable or `null` body gives the status message, and any other parsed body gives an `API Error` |
| Client.InvalidKeyResponse | popup.js:296-302 | For a 401 with `{"error":{"message":"invalid key"}}`, the code as written reports the status message, while the corrected handling reports "invalid key" |
| Client.IntendedUnknownError | popup.js:298-299 | With the corrected handling, a parsed failure object without an `error` member, `{}` included, reports "Unknown error" |
| Client.IntendedReportsRemoteMessage | popup.js:298-299 | With the corrected handling, a non-empty remote error message is reported verbatim |
| Client.SendMissingKey | popup.js:238-244 | With no selected key and a blank key field, the outcome is the missing-key error for every action, text and response |
| Client.SendInvalidAction | popup.js:238-267 | With a selected key, an unknown action is refused as "Invalid action" whatever the endpoint would answer |
| Client.SendCompletion | popup.js:238-310 | With a selected key and a known action, a completion in the documented shape yields its content |
| Client.SendHidesRemoteError | popup.js:238-302 | With a selected key and a known action, a non-ok response carrying `{"error":{"message":…}}` still ends in the generic status message |
| Client.ProcessSelectionCompletion | popup.js:324-338 | A selection with non-whitespace text, a selected key and a known action give the completion's content |
| Client.ProcessPageWithoutContent | popup.js:324-337 | A page with no article, no main element and no long block fails with "No suitable content", before any key or action check |
| Client.BlankSelectionNotSent | popup.js:324-335 | A selection that is all whitespace is refused as empty text, whatever the key store, action or response |
| Markdown.Document | popup.js:23 | The document is, in order and with nothing else: the title line `# <title> - <source>` and a blank line; the subtitle line, the `Generated on: <date>` line and a blank line; the "Original Text" heading and a blank line; the original text; the "Summary or Translation" heading between blank lines; the result |
| Markdown.DocumentReadBack | popup.js:23 | For a fixed title and source, the date, the original text and the result can be read back from the document, given the lengths of the date and of the text |
| Markdown.DocumentOpens | popup.js:23 | Every document starts with its title line |
| Markdown.DocumentExample | popup.js:23 | A document for "My Title!" from example.com opens with `# My Title! - example.com` |
| Slug.DashKeepsAlnum | popup.js:26 | Replacing every character outside ASCII letters and digits by a dash keeps the letters and digits, in order |
| Slug.CollapseDashes | popup.js:27 | The result has no double dash. It keeps the first and last characters and uses only characters of the input, and it is the input itself when that has no double dash |
| Slug.CollapseSplit | popup.js:27 | Collapsing a concatenation whose seam is not inside a run of dashes collapses each side on its own |
| Slug.CollapseDashRun | popup.js:27 | A run of dashes collapses to exactly one dash |
| Slug.CollapseKeepsNonDashes | popup.js:27 | Collapsing drops only dashes: every other character survives in order |
| Slug.CollapseTrailingDash | popup.js:27 | A dash after a trailing dash is absorbed |
| Slug.SanitizeTitle | popup.js:25-28 | The sanitised title holds only `a-z`, `0-9` and `-`, with no double dash. It is empty exactly when the title is, and it starts or ends with a dash exactly when the title starts or ends with a character outside ASCII letters and digits. A title of ASCII letters and digits only is just lower-cased |
| Slug.SanitizeKeepsAlnum | popup.js:25-28 | The sanitised title's letters and digits are the title's, in order and lower-cased |
| Slug.SanitizeSplit | popup.js:25-28 | A run of characters outside ASCII letters and digits, between two alphanumeric ends, becomes exactly one dash, and each side is sanitised on its own: "a b" gives `a-b` |
| Slug.SanitizeIdempotent | popup.js:25-28 | Sanitising twice equals sanitising once |
| Slug.FilenameLayout | popup.js:29 | The file name is the sanitised title, a dash, the lower-cased host, a dash, the date and `.md` |
| Slug.FilenameDoubleDash | popup.js:25-29 | A title ending in punctuation makes the file name contain `--` where title and host meet |
| Slug.FilenameExample | popup.js:25-29 | "My Title!!" from Example.COM on 2024-01-01 is saved as `my-title--example.com-2024-01-01.md` |
| Markdown.SaveAsMarkdownCheckOrder | popup.js:14-19 | On a page with no usable content, empty processed text is refused as "No processed text", and non-empty text is refused as "No suitable content" |
| Markdown.SaveAsMarkdownArticle | popup.js:14-31 | With processed text, a page with an article exports a `text/markdown` file whose original text is the article's text and which ends with the result |
| Markdown.SaveAsMarkdownName | popup.js:14-29 | A successful export of "My Title!!" from Example.COM on 2024-01-01 is named `my-title--example.com-2024-01-01.md` |
| Errors.RequestFailedStatusReadBack | popup.js:301 | The failed-request message is the fixed prefix, the status as a decimal numeral and the fixed hint, so the status can be read back from it |
| Errors.UnauthorizedMessage | popup.js:301 | A 401 shows "API request failed (401): Please check your API key and permissions" |
| Errors.MessageInjective | popup.js:296-307 | Distinct errors with a fixed text show distinct messages: the texts thrown here and those at lines 16, 122, 243 and 266 tell the error apart, and for a failed request or a remote error the status or detail too |

## Left out

- The browser APIs are left out: `chrome.tabs`, `chrome.scripting`, `chrome.storage.sync`, `chrome.downloads`, `fetch`, `Blob` and `URL.createObjectURL`. Storage is an explicit value, the HTTP response is an input, and the download is the returned `Download` value.
- `JSON.parse` is not modelled. The response body is given already parsed, or as unparsable, and JSON numbers are integers. The engine's wording of the JSON syntax and `null`-access errors is not modelled (`Errors.HasFixedMessage`).
- `Json.Member` models only what parsed JSON carries: object members, index access and `length`. Prototype members such as methods are left out, since the popup reads none of them. A string is indexed by character, not by UTF-16 code unit; the popup only tests the truthiness of such a value.
- DOM and UI code is left out: `showError`, `showStatus`, `clearStatus`, enabling and disabling buttons, `displayResult`, the key drop-down with its masked keys, the event listeners, `confirm` and `setTimeout`.
- `innerText`, `textContent`, `document.title` and `getSelection()` are opaque input strings. `new Date().toISOString()` and `new URL(...).hostname` are inputs (`date`, `host`).
- The legacy `openRouterApiKey` field (popup.js:373-387) is not modelled. It is a separate path that writes and reads the input box and shares no logic with the key store.
- The rewrap of a `TypeError` "Failed to fetch" as a network error (popup.js:316-317) is not modelled. It depends on the runtime type of a transport exception, and the model has no transport.
- Text.Lower: case mapping covers ASCII only. The sanitiser only lower-cases ASCII letters anyway, and host names from `URL` are already ASCII.
- `Client.SourceText` and `Markdown.SaveAsMarkdown` assume that the error thrown by `extractPageContent` inside the page reaches `getFullPageText` as a rejection of `chrome.scripting.executeScript` (popup.js:102-106). If the browser reports it instead as an injection result of `null`, `processText` would show "No text found to process" and `saveAsMarkdown` would export "null" as the original text. The model does not settle which of the two happens.
- A page whose `document.body` is `null` makes line 116 throw a `TypeError`. The abstract `Page` always has a body and cannot express this.
- The `console.error` logging at popup.js:45, 312 and 341 is left out. It writes only to the developer console, and nothing in the popup reads it back.
- Interleavings of concurrent storage writers are not modelled. Each operation is one atomic step from a storage value to the next.

## Findings

| source | as written | input that shows it | evidently intended | confidence | as-written member | corrected member |
|---|---|---|---|---|---|---|
| popup.js:296-302 | The `API Error` thrown at line 299 is inside the `try` whose `catch (e)` at line 300 replaces it with the generic status message, so the remote error is never shown | HTTP 401 with body `{"error":{"message":"invalid key"}}` | Report `API Error: invalid key`; fall back to the status message only when the body does not parse | high; not executed | Client.Classify (with Client.InvalidKeyResponse) | Client.ClassifyIntended (with Client.IntendedReportsRemoteMessage) |

`Client.Send` and `Client.ProcessText` describe the popup as it behaves, so
they use `Client.Classify`. `Client.ClassifyIntended` agrees with it on every
ok response.
