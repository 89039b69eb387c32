# Dog gallery screen: breed label and fetch state, in Dafny

This project models the only logic of the CachorroExpov2 app: the gallery
screen (`GalleryScreen` in `App.tsx`). That screen asks the Dog CEO API for a
random dog image, derives a breed label from the image URL, and renders three
state cells: `loading`, `imageUrl` and `dogBreed`.

- `wrappers.dfy`: `Option`, which stands for a nullable string.
- `text.dfy` (module `Text`): the JavaScript string operations the screen
  uses, each for a one-character pattern. They are `split`, `join`, `replace`
  (which replaces only the first occurrence) and `toUpperCase` on one
  character. Split and join are proved inverse in both directions.
- `breed_label.dfy` (module `BreedLabel`): the label pipeline of
  `App.tsx:77-83`. It takes the second-to-last `/` segment, turns its first
  hyphen into a space, and capitalises every space-separated word. The
  split/map/join chain is proved equal to an independent
  one-character-at-a-time definition (`CapitalizeFrom`). Length, space
  positions, word count, idempotence and the hyphen count all follow from
  that. A URL with no `/` has no label (`None`), because the source throws
  there.
- `gallery.dfy` (module `Gallery`): the network result becomes an abstract
  `Outcome` (`Thrown`, or `Response(status, message)`). `GalleryScreen` is a
  class with the three cells as fields. Its method `FetchDogImage` updates
  them step by step, as `fetchDogImage` does. It returns the cells as they stand
  while the request is awaited (`loading` true, previous image and breed
  kept, though the screen then shows only the loading indicators), and it
  ends in `Settled(outcome)`.
  `BreedText`, `ImagePanel` and `ButtonLabel` are the render choices.

Two consequences of the code are worth stating outright:

- A URL without `/` has no label. `split('/')` then yields one piece, so
  `parts[parts.length - 2]` is `undefined` and `.replace` throws at
  App.tsx:79. The `catch` clears both cells. In the model `Label` returns
  `None`, and `Settled` gives the `Failed` screen, which reads
  "Raça: Desconhecida".
- Every space-separated word is capitalised after the first hyphen has
  become a space, so `hound-afghan` gives "Hound Afghan"
  (`FormatHoundAfghan`). Only the first hyphen is replaced, so
  `english-cocker-spaniel` gives "English Cocker-spaniel"
  (`FormatEnglishCockerSpaniel`).

## Model

| member | source | states |
|---|---|---|
| `Text.Split` | App.tsx:77 | `split('/')` always gives at least one piece, one more than there are separators, and no piece holds the separator |
| `Text.JoinSplit` | App.tsx:77 | joining the pieces of a split with the separator gives back the original string |
| `Text.SplitJoin` | App.tsx:77 | splitting the join of separator-free pieces gives back exactly those pieces |
| `Text.SplitUnseparated` | App.tsx:77 | a string without the separator splits into itself alone |
| `Text.SplitAfterFirst` | App.tsx:77 | the first piece of `w + sep + rest` is `w`, followed by the pieces of `rest` |
| `Text.Join` | App.tsx:83 | `join(' ')` puts one separator between neighbours: separator-free pieces joined give one separator fewer than there are pieces |
| `Text.JoinCons` | App.tsx:83 | joining `[w] + rest` is `w`, the separator, then the join of `rest` |
| `Text.CountConcat` | App.tsx:83 | the occurrences of a character in a concatenation are those of its two parts added |
| `Text.ReplaceFirst` | App.tsx:79 | `replace('-', ' ')` keeps the length and leaves a string without `-` unchanged |
| `Text.ReplaceFirstAt` | App.tsx:79 | the replacement lands at the first `-` only; the text before and after it is unchanged |
| `Text.ReplaceFirstAfter` | App.tsx:79 | when `w` has no `-`, the `-` right after `w` is the one replaced |
| `Text.ReplaceFirstCount` | App.tsx:79 | the number of `-` drops by exactly one when there is one, and by none otherwise |
| `Text.UpperAscii` | App.tsx:82 | `toUpperCase` maps `a`–`z` to `A`–`Z` and leaves every other character alone |
| `Text.UpperAsciiIdempotent` | App.tsx:82 | upper-casing twice is upper-casing once |
| `Text.UpperAsciiFixes` | App.tsx:82 | upper-casing yields a space or a hyphen only from that same character |
| `BreedLabel.BreedSlug` | App.tsx:77-78 | there is a slug exactly when the URL holds a `/`, and the slug holds no `/` |
| `BreedLabel.SlugOfPath` | App.tsx:77-78 | for `.../<slug>/<file>` the slug taken is `<slug>`, the second-to-last segment |
| `BreedLabel.SlugIsSecondToLast` | App.tsx:77-78 | every slug found is the second-to-last segment of a decomposition of its URL |
| `BreedLabel.CapitalizeWord` | App.tsx:82 | the length is kept; only the first character changes, to its upper case; the empty word stays empty |
| `BreedLabel.CapitalizeEach` | App.tsx:82 | the `map` step: as many words come out as go in, the i-th is the i-th input word capitalised, and words without spaces stay without spaces |
| `BreedLabel.CapitalizeWords` | App.tsx:80-83 | split on spaces, capitalise each word, rejoin: the result holds exactly as many spaces as the input |
| `BreedLabel.CapitalizeOneWord` | App.tsx:80-83 | a text without spaces is one word, capitalised on its own |
| `BreedLabel.CapitalizeFirstWord` | App.tsx:80-83 | the first word is capitalised, the space is kept, and the rest is capitalised independently |
| `BreedLabel.CapitalizeWordsIsReference` | App.tsx:80-83 | split/map/join equals the character-at-a-time definition, which upper-cases exactly the characters that start a word |
| `BreedLabel.CapitalizeWordsAt` | App.tsx:80-83 | the length is kept; a character is upper-cased iff it is first or follows a space; spaces stay exactly where they were |
| `BreedLabel.CapitalizeWordsIdempotent` | App.tsx:80-83 | capitalising the capitalised text changes nothing |
| `BreedLabel.CapitalizeWordsWords` | App.tsx:80-83 | the words of the result are the input's words, each capitalised, in the same order and as many |
| `BreedLabel.CapitalizingKeepsHyphens` | App.tsx:80-83 | capitalising keeps the length, the number of hyphens and the positions of spaces |
| `BreedLabel.FormatBreedHyphens` | App.tsx:79-83 | the label is as long as the slug and has a space at the slug's first `-`; its `-` count is the slug's minus one if the slug had one, else the same |
| `BreedLabel.FormatBreed` | App.tsx:79-83 | replace the first `-` by a space, then capitalise the words: the name is as long as the slug and holds one `-` fewer when the slug had one, else as many |
| `BreedLabel.FormatTwoWords` | App.tsx:79-83 | `a-b` (no `-` or space in `a`, no space in `b`) becomes capitalised `a`, a space, capitalised `b`, and later hyphens stay in `b` |
| `BreedLabel.FormatPoodle` | App.tsx:79-83 | `poodle` becomes `Poodle` |
| `BreedLabel.FormatHoundAfghan` | App.tsx:79-83 | `hound-afghan` becomes `Hound Afghan` |
| `BreedLabel.CapitalizeHoundAfghan` | App.tsx:80-83 | the words `hound` and `afghan`, capitalised and rejoined, read `Hound Afghan` |
| `BreedLabel.FormatEnglishCockerSpaniel` | App.tsx:79-83 | `english-cocker-spaniel` becomes `English Cocker-spaniel`: only the first hyphen is replaced |
| `BreedLabel.CapitalizeEnglishCockerSpaniel` | App.tsx:80-83 | the words `english` and `cocker-spaniel`, capitalised and rejoined, read `English Cocker-spaniel` |
| `BreedLabel.Label` | App.tsx:77-83 | the label is missing, because the source throws, exactly when the URL has no `/` |
| `BreedLabel.LabelOfPath` | App.tsx:77-83 | the label of `.../<slug>/<file>` is the formatted slug, as long as the slug |
| `BreedLabel.LabelOfPoodleUrl` | App.tsx:77-83 | the URL given by its six `/`-separated segments `https:`, the empty segment, `images.dog.ceo`, `breeds`, `poodle`, `n456.jpg` is labelled `Poodle`; its file name alone has no label |
| `Gallery.Settled` | App.tsx:64-98 | after any outcome, loading is false and the pair is coherent; the image is set iff the status is `success` and the URL has a `/`, and then it is the message; otherwise the state is the all-null failure state |
| `Gallery.GalleryScreen.constructor` | App.tsx:59-61 | the initial state is loading, with image and breed null |
| `Gallery.GalleryScreen.FetchDogImage` | App.tsx:64-98 | while awaited, `loading` is true and the cells keep the previous image and breed (the screen shows only the loading indicators); afterwards it is `Settled(outcome)`, whatever came before, and coherence is kept |
| `Gallery.MountThenRefresh` | App.tsx:64-102 | after the mount-time fetch and one more, the cells hold the first result (with `loading` true) while the second is awaited, and afterwards only the second response counts |
| `Gallery.OrElse` | App.tsx:110 | the fallback of the breed paragraph: the breed when it is non-null and non-empty, else the fallback |
| `Gallery.BreedText` | App.tsx:110 | "Carregando Raça..." while loading; afterwards "Raça: " and the breed when it is non-null and non-empty, "Raça: Desconhecida" otherwise |
| `Gallery.ImagePanel` | App.tsx:114-129 | the spinner with "Buscando a imagem..." exactly while loading; the image exactly when not loading and the URL is non-null and non-empty, with that URL; otherwise "Falha ao carregar a imagem." |
| `Gallery.ButtonLabel` | App.tsx:138 | the button reads "Aguarde" exactly while loading, and "Novo Cachorro" otherwise |
| `Gallery.WhileLoading` | App.tsx:110-138 | while loading, the screen shows "Carregando Raça...", the spinner with "Buscando a imagem..." and the button "Aguarde" |
| `Gallery.AfterSuccess` | App.tsx:72-129 | a `success` response for `.../<slug>/<file>` shows the image and "Raça: " plus the formatted slug, or "Desconhecida" when the slug is empty |
| `Gallery.AfterFailure` | App.tsx:86-129 | a throw, a non-`success` status or a URL without `/` gives the failure state, "Raça: Desconhecida" and "Falha ao carregar a imagem." |

## Left out

- The network and JSON decoding (`fetch`, `response.json()`, App.tsx:69-70) are I/O. They are replaced by the `Outcome` parameter. A body whose `message` is not a string, which would also throw, is folded into `Thrown`.
- React hook mechanics (`useState` setters, the `useEffect` that fetches on mount, App.tsx:100-102) are not modelled. The cells are plain fields, and the mount-time fetch is an ordinary call in `MountThenRefresh`.
- Overlapping fetches from pressing the button while a request is in flight are not modelled. That is concurrency, and only sequential, settled calls are modelled.
- Navigation, `HomeScreen` and `App` (App.tsx:149-201) are library wiring, and the theme and styles are configuration. `console.error`, `StatusBar` and `Platform` are side effects or configuration. None of them is modelled.
- Text.UpperAscii: upper-cases only ASCII `a`–`z`. JavaScript `toUpperCase` also maps other letters, and may change a string's length (`ß` → `SS`); full Unicode case mapping is out of scope.
- Strings are sequences of Unicode scalar values, not UTF-16 code units. So `charAt(0)` on a character outside the Basic Multilingual Plane, which JavaScript would split, is not modelled.
- The title and the button's own `loading` spinner prop carry no logic beyond the `loading` flag and are not modelled.
