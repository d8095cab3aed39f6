# Culture Code maxim explorer: the selection/fetch protocol and the AI response handling

The application lists maxims from "The Culture Code". When one is clicked, it asks a generative-AI service for an explanation: a meaning and a few stories. The answer is shown in a detail pane. This project models the two parts of the application that hold logic, and proves properties of them.

- **The top-level component** (`App.tsx`), module `AppComponent`. It has five state cells: `selectedMaxim`, `maximContent`, `isLoading`, `error` and `nonce`. The click handler `handleSelectMaxim` ignores a click, retries by bumping `nonce`, or switches the selection. An effect keyed on `[selectedMaxim, nonce]` starts one fetch per change. The effect's cleanup marks the previous fetch stale, and a stale fetch's completion is dropped. In the model that staleness flag is a generation number. Each effect run increments `generation`, and each fetch carries the generation that started it as its token. A completion is applied only if its token still equals `generation`. `pending` is the set of started fetches that have not settled yet.
  - The component is the class `App`. Its methods `Click`, `Resolve` and `Reject` update the fields in place.
  - Pure step functions on an `AppState` value specify those methods. They are also used for lemmas over whole event sequences.
- **The response handling of `fetchMaximExplanation`** (`services/geminiService.ts`), module `GeminiService`. It trims the service's text and cuts out the part from the first `{` to the last `}`. It parses that part, checks the required fields and maps every error to the message the user sees. The service call and `JSON.parse` are inputs:
  - the service outcome is a `Result<string, Thrown>`;
  - the parser is a function `string -> ParseOutcome`.
- Supporting modules:
  - `Json` holds parsed JSON values and JavaScript truthiness.
  - `Types` holds `Story` and `MaximContent` from `types.ts`.
  - `Wrappers` holds `Option` and `Result`.

Two behaviours of the code are easy to miss:
- Validation tests `maxim` and `meaning` for *truthiness*, not presence, so an object whose `maxim` or `meaning` is the empty string is rejected (`GeminiService.HasRequiredFields`, `GeminiService.ConformingAcceptedIff`).
- The effect tests the selection for truthiness, so selecting the empty string starts no fetch. The effect still runs and makes the previous fetch stale, so its completion is dropped and `isLoading` can stay `true`. For example, clicking `"A"` and then `""` leaves loading on, with generation 2 current and only generation 1's fetch outstanding (`AppComponent.RunEffect`, `AppComponent.ClickStartsOneFetch`).

## Model

| member | source | states |
|---|---|---|
| `AppComponent.App.constructor` | App.tsx:9-13 | The component mounts with nothing selected, no content, not loading, no error and `nonce` 0. No fetch is outstanding. |
| `AppComponent.App.Click` | App.tsx:15-74 | A click on the maxim being loaded changes nothing. So does a click on the selected maxim once its content is loaded. Any other click on the selected maxim raises `nonce` by exactly 1 and keeps the selection. A click on another maxim selects it and keeps `nonce`. Any click that changes the state starts a new generation and keeps the shown content. If the new selection is truthy, it also starts exactly one fetch, sets loading and clears the error; otherwise loading, error and outstanding fetches stay as they were. |
| `AppComponent.App.Resolve` | App.tsx:28-44 | Only the current generation's fetch can change what is shown. A stale success leaves every cell as it was. A current success shows its content and stops loading, and the error stays cleared. |
| `AppComponent.App.Reject` | App.tsx:33-44 | A stale failure leaves every cell as it was. A current failure shows the thrown `Error`'s message, or "An unknown error occurred." for a non-`Error`. It also drops the content and stops loading. |
| `AppComponent.IsTruthySelection` | App.tsx:17 | The effect fetches for a selection exactly when it is a string that is truthy by JavaScript's rules, i.e. non-empty. |
| `AppComponent.HandleSelectMaxim` | App.tsx:56-74 | After the handler the clicked maxim is always selected. The handler changes nothing but the selection and `nonce`. It leaves the state untouched exactly when the clicked maxim is already selected and is loading or loaded. `nonce` moves only by 1, and only for a retry of the selected maxim that is neither loading nor loaded. |
| `AppComponent.RunEffect` | App.tsx:15-27 | The effect does nothing unless `selectedMaxim` or `nonce` changed. It never touches the selection, the content or `nonce`. When it runs it opens a new generation that no earlier fetch carries, so every earlier fetch becomes stale. For a truthy selection it adds exactly that generation's fetch, with loading on and the error cleared. It keeps the protocol invariant. |
| `AppComponent.ResolveStep` | App.tsx:28-32 | A fetch's success settles that fetch. It can change only the content and the loading flag. It keeps the protocol invariant. `App.Resolve` is proved equal to it. |
| `AppComponent.RejectStep` | App.tsx:33-44 | A fetch's failure settles that fetch. It can change only the error, the content and the loading flag. It keeps the protocol invariant. `App.Reject` is proved equal to it. |
| `AppComponent.ErrorMessage` | App.tsx:36 | The message shown for a thrown value is the `Error`'s own message. Any other thrown value gives the fixed fallback message. |
| `AppComponent.ClickCases` | App.tsx:56-74 | The click handler's four cases as a function of the state: ignore while loading, ignore when loaded, retry (`nonce` + 1, same selection) and switch (new selection, same `nonce`). |
| `AppComponent.ClickStartsOneFetch` | App.tsx:15-27 | A click that changes `(selectedMaxim, nonce)` makes every earlier fetch stale. For a truthy selection it starts exactly one new fetch, with loading on and the error cleared. It keeps the old content on screen. An empty-string selection starts no fetch. |
| `AppComponent.StaleCompletionIgnored` | App.tsx:28-53 | A completion whose token is not the current generation, success or failure, changes nothing but the set of unsettled fetches. |
| `AppComponent.FreshResolveShowsContent` | App.tsx:28-44 | In a reachable state, the current fetch's success shows its content, stops loading and leaves the error cleared. |
| `AppComponent.FreshRejectShowsError` | App.tsx:33-44 | The current fetch's failure shows the error message, drops the content and stops loading. |
| `AppComponent.StepKeepsValid` | App.tsx:15-74 | Every event that can happen keeps the protocol invariant. Unsettled fetches were started in the current generation or before it. While the current fetch is unsettled, the component is loading with no error. |
| `AppComponent.RunKeepsValid` | App.tsx:15-74 | The invariant holds after any feasible sequence of clicks and completions. |
| `AppComponent.GenerationNeverDecreases` | App.tsx:49-54 | Generations only grow, so a fetch that has become stale stays stale. |
| `AppComponent.SupersededFetchNeverWrites` | App.tsx:21-53 | A fetch started before the current generation changes nothing on screen when it completes. This holds wherever it arrives in any later sequence of clicks and completions. |
| `AppComponent.CompletionsWerePending` | App.tsx:28-44 | Without clicks, no new fetch starts and the generation stays fixed. Every completion is of a fetch that was already outstanding. |
| `AppComponent.OnlyLatestFetchDecides` | App.tsx:21-53 | After any sequence of completions, the screen is what the current fetch's completion alone makes of it. If that fetch has not settled, the screen is unchanged. The other fetches' completions have no effect, whatever their order. |
| `AppComponent.CompletionOrderIrrelevant` | App.tsx:21-53 | Two arrival orders of the same outstanding completions leave the same screen. |
| `AppComponent.FetcherErrorsKeepTheirMessage` | App.tsx:35-37 | The fetcher only throws `Error`s. So when its failure reaches the component, the user sees its message and never the "unknown error" fallback. |
| `GeminiService.IsJsWhitespace` | services/geminiService.ts:74 | The characters `trim` removes are the ECMAScript whitespace and line terminators. Neither brace is among them, so trimming never removes a brace. |
| `GeminiService.LeadingWhitespace` | services/geminiService.ts:74 | The leading run that trimming removes is the longest whitespace prefix: every character in it is whitespace, and the next one is not. |
| `GeminiService.Trim` | services/geminiService.ts:74 | The trimmed text is the slice left after the longest whitespace prefix and suffix are removed. It is empty, or it starts and ends with a non-whitespace character. |
| `GeminiService.IndexOfFrom` | services/geminiService.ts:78 | The result is the first position at or after the start index that holds the character, or -1 exactly when no such position holds it. |
| `GeminiService.IndexOf` | services/geminiService.ts:78 | The result is the first position holding the character, or -1 exactly when it does not occur. |
| `GeminiService.LastIndexOfBefore` | services/geminiService.ts:79 | The result is the last position before the end index that holds the character, or -1 exactly when none does. |
| `GeminiService.LastIndexOf` | services/geminiService.ts:79 | The result is the last position holding the character, or -1 exactly when it does not occur. |
| `GeminiService.CutObjectText` | services/geminiService.ts:78-86 | A successful cut is the substring from a `{` with no `{` before it to a `}` with no `}` after it, inclusive, and the first comes at or before the second. So it starts with `{` and ends with `}`. A failed cut is the "could not be read" error. |
| `GeminiService.ExtractJsonText` | services/geminiService.ts:74-86 | A successful extraction starts with `{` and ends with `}`. Any failure is the "AI returned a response that could not be read. Please try again." error. |
| `GeminiService.ExtractIsFirstOpenToLastClose` | services/geminiService.ts:74-86 | Trimming never changes the outcome. The extraction is exactly the substring of the response from its first `{` to its last `}` inclusive. It fails when either brace is missing or the last `}` precedes the first `{`. |
| `GeminiService.ExtractSucceedsIff` | services/geminiService.ts:81-84 | Extraction succeeds if and only if the response holds some `{` at or before some `}`. |
| `GeminiService.BraceDelimitedIsFixedPoint` | services/geminiService.ts:78-86 | A text that already starts with `{` and ends with `}` is extracted whole. |
| `GeminiService.ExtractIdempotent` | services/geminiService.ts:78-86 | Extracting again from an extracted text returns it unchanged. |
| `GeminiService.WrappingIsTransparent` | services/geminiService.ts:76-86 | Wrapping an object text in a prefix with no `{` and a suffix with no `}` still extracts exactly the object text. Code fences and commentary are examples of such wrapping. |
| `GeminiService.HasRequiredFields` | services/geminiService.ts:91 | An object that passes has `maxim`, `meaning` and `stories` members, and `stories` is an array. An empty-string `maxim` or `meaning` fails it. |
| `Json.Member` | services/geminiService.ts:91 | Reading a property of a parsed object gives its value when the key is present and `undefined` exactly when it is absent. |
| `Json.Truthy` | services/geminiService.ts:91 | A property read is truthy only if it is defined and not `null`. Every array and object is truthy, even an empty one. A string is truthy exactly when it is non-empty. |
| `Json.IsArray` | services/geminiService.ts:91 | `Array.isArray` of a property read holds only for an array, which is always truthy. |
| `GeminiService.Validate` | services/geminiService.ts:91-96 | Validation accepts exactly when `maxim` and `meaning` are truthy and `stories` is an array. It returns the parsed object unchanged. Otherwise it fails with "AI response was missing required data fields." |
| `GeminiService.AsMaximContent` | services/geminiService.ts:92 | The typed reading of an object shaped like `MaximContent`. It has the object's maxim and meaning, and its story `k` has the title, narrative and quote of the object's item `k`, for every `k`. |
| `GeminiService.ToJson` | types.ts:2-12 | The JSON form of any `MaximContent` value has the `MaximContent` shape. |
| `GeminiService.AsMaximContentInvertsToJson` | services/geminiService.ts:92 | Round trip: the typed reading of the JSON form of any content is that content. |
| `GeminiService.ToJsonAcceptedIff` | services/geminiService.ts:91-92 | The JSON form of a content passes validation exactly when its maxim and meaning are non-empty. |
| `GeminiService.ConformingAcceptedIff` | services/geminiService.ts:91-92 | Validation accepts an object of the right shape exactly when its maxim and meaning are non-empty. |
| `GeminiService.StoryItemsAreNotChecked` | services/geminiService.ts:91-92 | Validation is shallower than the `MaximContent` type: an object whose `stories` holds a `null` is accepted. |
| `GeminiService.CatchFetchError` | services/geminiService.ts:97-107 | The catch block always throws an `Error`, never a `SyntaxError`. A `SyntaxError` becomes "The AI returned a malformed data structure. Please try again." Any other `Error` is rethrown unchanged. A non-`Error` becomes "An unexpected error occurred while fetching the explanation." |
| `GeminiService.CatchIsIdempotent` | services/geminiService.ts:97-107 | Passing an error through the catch block a second time changes nothing. |
| `GeminiService.TryBlock` | services/geminiService.ts:64-96 | The `try` block. A service failure passes through unchanged. After the service answers, every error the block raises is an `Error`. It is a `SyntaxError` exactly when `JSON.parse` of the extracted text failed, and a plain `Error` otherwise. A success is the parsed extracted object, and it has the required fields. |
| `GeminiService.FetchMaximExplanation` | services/geminiService.ts:64-107 | A failed fetch always throws an `Error` that is not a `SyntaxError`. A successful fetch returns the parsed object of the extracted text, which has the required fields. |
| `GeminiService.FetchOutcomes` | services/geminiService.ts:64-107 | Every way the fetch can end. Service errors go through the catch mapping. A response without a `{`…`}` pair gives the "could not be read" error. A parse failure gives the "malformed" error. Missing fields give the "missing required data fields" error. Otherwise the parsed object is returned. |
| `GeminiService.WrappedResponseSameOutcome` | services/geminiService.ts:74-92 | Round trip: a response whose object text is wrapped in extra text before the `{` and after the `}` ends the same way as the bare object text, with any parser. |

## Left out

- The `API_KEY` check and the client construction at module load (services/geminiService.ts:4-8) are not modelled. They are configuration and a foreign SDK.
- The `generateContent` network call (services/geminiService.ts:65-72) is not modelled. Its outcome is an input: the response text, or a thrown value.
- `response.text` being `undefined` is not modelled; the response text is always a string. In the source that case throws a `TypeError` from `trim`, which the catch block rethrows unchanged.
- `JSON.parse` (services/geminiService.ts:88) is a parameter. It is assumed to yield an object on success, because the text it gets always starts with `{`.
- The prompt template and the `responseSchema` literal (services/geminiService.ts:10-62) are not modelled. They are text sent to the service and carry no behaviour.
- `console.error` logging is not modelled.
- Rendering is not modelled: the JSX in App.tsx:76-111, components/MaximDetail.tsx and components/MaximList.tsx. The list's `disabled` attribute on the loading item duplicates the handler's first case.
- The `MAXIMS` catalog (`./constants`) is not part of this model. The model accepts any maxim string.
- React scheduling is not modelled. A click, its re-render and the effect run happen as one step. The `await` becomes separate `Resolve`/`Reject` events that carry the fetch's generation. A fetch settles at most once, so those events require the token to be outstanding.
- JavaScript strings are UTF-16 code units; the model uses Unicode characters. This does not change what is extracted, because braces and whitespace are single code units.
- `nonce` is unbounded. JavaScript's loss of integer precision above 2^53 is not modelled.
