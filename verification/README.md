# Carousel and Tabs selection state machines

A Dafny model of the two page widgets of the Tabs-Components repository.

- **Carousel** (`components/Carousel/Carousel.js`). The widget keeps a fixed sequence of items and two indices: `current`, the item shown, which carries class `carousel-item-active`; and `next`, the item a forward move shows, which carries `carousel-item-next`. The left button calls `showItem('next')` and the right button calls `showItem('prev')`. Both moves wrap around.
- **Tabs** (`components/Tabs/Tabs.js`). Every `.tabs-link` element becomes a `TabLink`. The link reads its `data-tab` key and finds the first `.tabs-item` element with the same key. Clicking the link removes `tabs-link-selected` from every link and adds it to the clicked one. The panel component `TabItem` is a stub: it stores nothing, and its `select` does nothing.

The document is replaced by values:

- A carousel item is its class list (`set<string>`).
- A page element is a record of its `data-tab` attribute (optional) and its class list (`Dom.Element`).
- The page is the sequence of its elements in document order.
- Every operation is a pure function from the old state to the new one. A click is a direct call.

Files:

- `dom.dfy`: class lists, elements, `Option`, and `classList.add`/`remove`.
- `carousel.dfy`: module `Carousel`.
- `tabs.dfy`: module `Tabs`.

Where the design intent and the code differ, the model follows the code:

- With no item marked active, the constructor leaves `current` at -1. It does not default to 0. `next` is then 0.
- The constructor does not mark the `next` item `carousel-item-next`.
- With a single item, both moves leave that item carrying both markers.
- A link whose key matches no panel is still constructed. Its panel reference is simply empty.
- Selecting a link does not select any panel, because `TabItem.select` is empty.

## Model

| member | source | states |
|---|---|---|
| Carousel.SetNext | components/Carousel/Carousel.js:63-65 | for `0 <= current < N` the result is `(current + 1) mod N`, so it lies in `[0, N)`; for `current = -1` (no active item) the result is 0 |
| Carousel.FindActiveFrom | components/Carousel/Carousel.js:18 | `findIndex` semantics: -1 exactly when no item from `from` on is active; otherwise the result is active and no earlier item is |
| Carousel.Init | components/Carousel/Carousel.js:15-19 | the items are left unchanged, so no `carousel-item-next` is added; `current` is the first active item, or -1 iff none is active; with an active item the state is well-formed (`next` follows `current`); with none, `next` is 0 |
| Carousel.ShowNext | components/Carousel/Carousel.js:45-52 | new `current` is the old `next` and new `next` is `(old next + 1) mod N`; per item, active iff it is the old `next` or was active and is not the old `current`; upcoming iff it is the new `next` or was upcoming and is not the old `next`; every other class is unchanged; items other than the old current, old next and new next are unchanged |
| Carousel.ShowPrev | components/Carousel/Carousel.js:53-59 | new `current` is `(current - 1) mod N` and new `next` is the old `current`; per item, active iff it is the new `current` or was active and is not the old `current`; upcoming iff it is the old `current` or was upcoming and is not the old `next`; every other class is unchanged; items other than the old current, old next and new current are unchanged |
| Carousel.Before | components/Carousel/Carousel.js:57 | the backward step is `(current - 1) mod N`, and `setNext` of it gives back `current` |
| Carousel.ShowItem | components/Carousel/Carousel.js:44-61 | "next" moves forward and "prev" moves back; any other direction returns the carousel unchanged, with no requirement on its indices |
| Carousel.Click | components/Carousel/Carousel.js:34-38 | the left button moves forward (`current` becomes the old `next`); the right button moves back (`current` becomes `(current - 1) mod N`, `next` the old `current`) |
| Carousel.MovesKeepWellformed | components/Carousel/Carousel.js:49-50 | after either move `next` is `(current + 1) mod N` and both indices are in range, from any valid state |
| Carousel.AdvanceWraps | components/Carousel/Carousel.js:45-50 | after K calls of `showItem('next')` from a well-formed state, `current` is `(start + K) mod N` |
| Carousel.RetreatWraps | components/Carousel/Carousel.js:53-59 | after K calls of `showItem('prev')` from a well-formed state, `current` is `(start - K) mod N` |
| Carousel.AdvanceByKeepsWellformed | components/Carousel/Carousel.js:49-50 | any number of forward moves keeps `next` the slot after `current` |
| Carousel.MovesEstablishMarkers | components/Carousel/Carousel.js:46-58 | if `carousel-item-active` is on exactly item[current] and `carousel-item-next` on no item but item[next], then after either move active is on exactly the new current item and upcoming on exactly the new `next` item (for every N >= 1) |
| Carousel.ClickRoundTrip | components/Carousel/Carousel.js:35-59 | from a well-formed state with exact markers, right-then-left and left-then-right clicks each restore the whole carousel: indices and every class of every item |
| Carousel.SingleItem | components/Carousel/Carousel.js:44-65 | with one item, both moves keep `current = next = 0` and leave item 0 carrying both `carousel-item-active` and `carousel-item-next` |
| Carousel.InitSound | components/Carousel/Carousel.js:18-19 | markup with exactly one active item k and no upcoming item gives `current = k`, a well-formed state and sound markers, so the marker invariant holds from the first move on |
| Tabs.FindItemFrom | components/Tabs/Tabs.js:23 | `querySelector` semantics: the first `.tabs-item` element whose `data-tab` equals the key, or none exactly when no element matches |
| Tabs.NewTabLink | components/Tabs/Tabs.js:15-31 | the link keeps its element and its `data-tab` value; its panel is the first `.tabs-item` with the key its selector interpolates, or none iff no element matches; construction always succeeds |
| Tabs.LinkIndicesFrom | components/Tabs/Tabs.js:81 | the indices of exactly the `.tabs-link` elements, strictly increasing (document order) |
| Tabs.BuildLinks | components/Tabs/Tabs.js:81-82 | one `TabLink` per `.tabs-link` element, in document order, each built by the constructor from its own element |
| Tabs.Select | components/Tabs/Tabs.js:38-51 | the clicked link carries `tabs-link-selected`; no other link does; non-link elements other than the clicked one, including every panel, are unchanged; no element's key or other classes change |
| Tabs.SelectLeavesOneSelected | components/Tabs/Tabs.js:42-47 | after selecting a link element, the set of selected links is exactly that one link |
| Tabs.SelectOverrides | components/Tabs/Tabs.js:42-47 | selecting link a and then link b yields the same document as selecting b alone |
| Tabs.SelectIdempotent | components/Tabs/Tabs.js:42-47 | selecting the same link twice yields the same document as selecting it once |
| Tabs.SelectKeepsPairing | components/Tabs/Tabs.js:20-26 | selecting never changes which panel any link's selector finds, so the pairing made at construction stays what a fresh lookup would find |
| Tabs.FindItemAgrees | components/Tabs/Tabs.js:23 | two documents on which the item selector matches the same elements give the same lookup result |
| Tabs.ClickLeavesOneSelected | components/Tabs/Tabs.js:29-47 | clicking any constructed link leaves exactly that link selected, whatever was selected before |

## Left out

- Document querying (`querySelectorAll`, `querySelector`) is replaced by given sequences of elements. The lookups it performs are modelled as functions over those sequences.
- Event plumbing (`addEventListener`): a click is a direct call to `Click` or `Select`.
- Debug logging (`console.log`) has no effect on state.
- The singletons built at load time (`Carousel.js:91`, `Tabs.js:81`) are not modelled as side effects. Only the resulting link list (`BuildLinks`) is modelled.
- `createButtons` and the `CarouselItem`/`CarouselButton` holders only find and hold elements. A missing button would make the constructor throw; that case is not modelled, and the two buttons are the `Button` enum.
- Carousel moves with no active item (`current = -1`) are not modelled. In the source they index `items[-1]` and throw. `ShowNext`, `ShowPrev` and `Click` require both indices in range instead.
- Panel switching (`tabs-item-selected`) is described only in comments in `TabItem.select`, which is empty. It is not modelled; panels stay untouched.
- CSS selector syntax errors are not modelled. A `data-tab` value containing a quote or backslash would make `querySelector` throw or be read differently; keys are compared as plain strings.
