# EasyMap landing page: scroll reveal and brand palette

This project is a Dafny model of the two pieces of logic in the EasyMap landing page.

- **The scroll-reveal controller** (`src/App.tsx`, module `App`). This is the effect that adds
  `is-visible` to each `.will-fade` element once the element is at least partly inside the viewport.
  It works through an `IntersectionObserver`, backed up by a sweep (`checkAll`). The sweep runs on
  scroll, on resize and once from a 600 ms settle timer. When there is no observer, every element is
  revealed at once. The cleanup detaches everything again. The model is the class
  `RevealController`. Its fields are:
  - the element list;
  - the `is-visible` set;
  - the observer's watch list;
  - a flag for "the observer is live";
  - a flag for "the listeners are attached";
  - a flag for "the timer is pending".

  Each operation is a method whose postcondition gives the complete new state as a function of the
  old one. The language toggle of the navigation bar (`'en'` ↔ `'zh-TW'`) and its caption are pure
  functions in the same module.
- **The brand palette** (`src/main.tsx`, module `Palette`). It covers four things:
  - the averaging loop over the logo's RGBA buffer. Only pixels with alpha ≥ 200 count, and when no
    pixel qualifies the result is the fallback colour (14, 165, 233);
  - `clamp`;
  - `toHex`/`hex`, which turn a colour into a `#rrggbb` string;
  - `lighten`/`darken` and the eleven shades 50 … 950 built by `createShades`.

  The loop is a method proved equal to a specification function (`MeanColor`). The lemmas about that
  function give:
  - the fallback case;
  - the bounds on each channel;
  - that translucent pixels have no influence.

  The encoder is modelled as `Number.prototype.toString(16)` followed by `padStart(2, '0')`. It is
  proved to round-trip through a `#rrggbb` decoder. The shades are proved to be valid colours and to
  be ordered, channel by channel, from 50 down to 950.

`Math.round(x)` is modelled as `(x + 0.5).Floor` on Dafny's exact `real`s, so halves round towards
+∞ as in JavaScript. The percentages 0.9, 0.8, … are exact rationals.

Element geometry is an input. Each operation receives the bounding boxes
`getBoundingClientRect` would report at that moment, as a total function `rect: ElementId -> Box`
with `real` coordinates, together with `innerHeight`. The observer's intersection test is the browser's, so the callback takes
its entries, with their `isIntersecting` flags, as input. The initial `is-visible` set is the
constructor's argument, because the markup marks some elements visible already (`src/App.tsx:97`).

`revealIfInViewport` (`src/App.tsx:31-36`) observes every element, revealed or not. Only the observer
callback (`src/App.tsx:25`) and the sweep (`src/App.tsx:47`) unobserve an element. `ScrollScenario` in
`app.dfy` shows this: element 1 stays in the watch list until the callback reports it.

## Model

| member | source | states |
|---|---|---|
| App.InView | src/App.tsx:33 | an element is out of view exactly when its top is at or below the viewport's lower edge or its bottom is at or above the upper edge; both bounds are strict, so top equal to the viewport height, or bottom equal to 0, is not in view; the sweep at line 45 uses the same test |
| App.InViewSet | src/App.tsx:31-34 | an element is in the set exactly when it is one of the elements and its box satisfies `top < innerHeight && bottom > 0` |
| App.Revealable | src/App.tsx:42-47 | an element is swept exactly when it is listed, not yet visible and in view |
| App.Intersecting | src/App.tsx:22-26 | an element is a callback target exactly when some entry for it is intersecting |
| App.SweepIsIdempotent | src/App.tsx:41-50 | after a sweep every in-view element is visible, and a second sweep over the same layout reveals nothing |
| App.RevealController.constructor | src/App.tsx:97 | the page starts with the markup's `is-visible` set, nothing observed, no listener and no timer |
| App.RevealController.RevealIfInViewport | src/App.tsx:31-36 | the element becomes visible if it is in view, is observed either way, and nothing else changes |
| App.RevealController.Init | src/App.tsx:10-55 | no container: nothing changes. No observer: every element becomes visible, nothing is observed, and no listener or timer is set. Otherwise: visible grows by exactly the in-view elements (the others keep their prior visibility), every element is observed, and the listeners and the timer are set |
| App.RevealController.OnIntersection | src/App.tsx:21-27 | visible grows by exactly the targets of intersecting entries, those targets leave the watch list, and non-intersecting entries change nothing |
| App.RevealController.CheckAll | src/App.tsx:41-52 | visible grows by exactly the listed, not yet visible, in-view elements, and exactly those leave the watch list. Already visible elements keep their observed status, and out-of-view elements are untouched |
| App.RevealController.OnSettleTimer | src/App.tsx:55 | the timer is no longer pending and the sweep's effect is applied |
| App.RevealController.Teardown | src/App.tsx:57-62 | listeners detached, timer cleared, observer disconnected with an empty watch list; visible and the element list unchanged |
| App.RevealController.OnLanguageChange | src/App.tsx:57-63 | cleanup followed by a re-run: the element list is the new one (unchanged without a container); with an observer the listeners are attached, the timer is pending and the watch list is exactly the new elements; visibility only grows |
| App.ToggleLanguage | src/App.tsx:81 | the next language is `'zh-TW'` exactly when the current one is `'en'`, and `'en'` otherwise |
| App.ToggleLabel | src/App.tsx:84 | the caption is `'繁體中文'` exactly when the language is `'en'`, and `'English'` otherwise |
| App.LabelNamesNextLanguage | src/App.tsx:81-84 | the caption is the name of the language the click switches to |
| App.ToggleTwice | src/App.tsx:81 | two clicks from a supported language return to it; after one click the toggle alternates |
| Palette.Round | src/main.tsx:46 | `Math.round`: the result is within one half of its argument, with halves rounded up |
| Palette.RoundMeanFormula | src/main.tsx:46 | the rounded mean `Math.round(t / c)` equals the integer formula `(2t + c) / (2c)` |
| Palette.Clamp | src/main.tsx:54-56 | the result is at most `max`; with `min <= max` it is in range, it is `value` when `value` is in range, and otherwise it is the bound crossed |
| Palette.Total | src/main.tsx:38-42 | a channel total over a byte buffer is between 0 and 255 times the number of qualifying pixels |
| Palette.Mean | src/main.tsx:46 | `Math.round(total / count)` equals the integer formula `(2·total + count) / (2·count)` |
| Palette.Count | src/main.tsx:35-42 | at most one qualifying pixel per pixel visited; a pixel qualifies (`Qualifies`) when the alpha at offset 4k+3 is at least 200, as the `continue` at line 37 decides |
| Palette.AverageColor | src/main.tsx:34-47 | the loop stepping by 4 over the buffer returns exactly `MeanColor` of the buffer |
| Palette.ExtractAverageColor | src/main.tsx:19-51 | a load error or a missing 2D context gives the fallback colour; a loaded buffer gives its average |
| Palette.CountZeroIffNoneQualify | src/main.tsx:37-43 | the count is zero exactly when no pixel has alpha ≥ 200 |
| Palette.MeanColorCases | src/main.tsx:43-47 | the result is exactly (14, 165, 233) when no pixel qualifies; otherwise each channel is the rounded mean over the qualifying pixels |
| Palette.TotalBetween | src/main.tsx:35-42 | if every qualifying sample of a channel is in [lo, hi], the channel total is between lo·count and hi·count |
| Palette.MeanBetween | src/main.tsx:46 | a rounded mean of values in [lo, hi] is in [lo, hi] |
| Palette.MeanColorBetween | src/main.tsx:43-47 | each averaged channel lies between the minimum and the maximum qualifying sample |
| Palette.MeanColor | src/main.tsx:43-47 | when no pixel has alpha ≥ 200 the result is the fallback (14, 165, 233); over a byte buffer every channel of the result is in 0..255 |
| Palette.TranslucentPixelsIgnored | src/main.tsx:36-42 | buffers that agree on which pixels qualify and on those pixels' colour give the same result |
| Palette.PadStart | src/main.tsx:59 | `padStart`: the string ends with the input, is at least `width` long, and is padded with the fill character only |
| Palette.HexDigit | src/main.tsx:59 | each digit value 0..15 is written as a lower-case hex digit (`0`–`9`, `a`–`f`) that reads back as that value |
| Palette.Radix16 | src/main.tsx:59 | `toString(16)` of a non-negative number is non-empty and starts and ends with a lower-case hex digit |
| Palette.ToString16 | src/main.tsx:59 | `toString(16)` is non-empty and starts with `-` exactly when the number is negative |
| Palette.ToHex | src/main.tsx:59 | `toHex(v)` is at least two characters long; for v ≥ 0 its first and last characters are hex digits |
| Palette.Hex | src/main.tsx:60 | `hex(rr, gg, bb)` starts with `#` and is at least seven characters long |
| Palette.Radix16Digits | src/main.tsx:59 | `toString(16)` of a non-negative number is a non-empty string of lower-case hex digits |
| Palette.Radix16Parses | src/main.tsx:59 | reading the digits of `toString(16)` back gives the number |
| Palette.Radix16Length | src/main.tsx:59 | `toString(16)` has at most two digits exactly when the number is below 256 |
| Palette.ToHexPair | src/main.tsx:59 | `toHex(v)` has two characters exactly when 0 <= v < 256; then both are lower-case hex digits that read back as v |
| Palette.HexRoundTrip | src/main.tsx:60 | `hex(r, g, b)` of channels in 0..255 is a `#rrggbb` string that decodes back to (r, g, b) |
| Palette.LightenChannel | src/main.tsx:61-65 | a lighten channel is always in 0..255 |
| Palette.DarkenChannel | src/main.tsx:66-70 | a darken channel is always in 0..255 |
| Palette.Lighten | src/main.tsx:61-65 | `lighten(pct)` always gives a colour whose channels are in 0..255, whatever the base and the percentage |
| Palette.Darken | src/main.tsx:66-70 | `darken(pct)` always gives a colour whose channels are in 0..255, whatever the base and the percentage |
| Palette.LightenNotDarker | src/main.tsx:61-65 | for percentages in [0, 1], lightening never lowers a channel |
| Palette.DarkenNotLighter | src/main.tsx:66-70 | for percentages in [0, 1], darkening never raises a channel |
| Palette.LightenMonotone | src/main.tsx:61-65 | a larger percentage never lightens less |
| Palette.DarkenMonotone | src/main.tsx:66-70 | a larger percentage never darkens less |
| Palette.ShadeColor | src/main.tsx:72-82 | the colour of each of the eleven shades has channels in 0..255 when the base colour does |
| Palette.CreateShades | src/main.tsx:71-83 | the palette has exactly the shade numbers 50, 100, 200, …, 900, 950 |
| Palette.Shade500IsBase | src/main.tsx:77 | shade 500 is exactly `hex(r, g, b)` of the averaged colour |
| Palette.ShadesAreColors | src/main.tsx:71-83 | for a colour in 0..255, every shade has channels in 0..255 and is a `#rrggbb` string that decodes to that shade's colour |
| Palette.ChannelTones | src/main.tsx:61-83 | per channel: lighten 0.9 ≥ 0.8 ≥ 0.6 ≥ 0.4 ≥ 0.2 ≥ base ≥ darken 0.15 ≥ 0.3 ≥ 0.45 ≥ 0.6 ≥ 0.75 |
| Palette.ShadesStepDown | src/main.tsx:71-83 | each shade's channel is at least the next shade's channel |
| Palette.DescendingFromSteps | src/main.tsx:71-83 | a sequence ordered from each element to the next is ordered between any two positions |
| Palette.ShadesOrdered | src/main.tsx:71-83 | per channel 50 ≥ 100 ≥ 200 ≥ … ≥ 900 ≥ 950, between any two shades |

## Left out

- The JSX markup, Tailwind classes and translated text of `src/App.tsx` are left out: they are presentation only.
- `src/i18n.ts` is not part of this model. It is a resource table handed to i18next. Lookup, fallback and detection happen in that library and in browser storage.
- `vite.config.ts` is not part of this model: it is build configuration.
- The favicon, the Promise plumbing and its `.catch`, the CSS variables, the `theme-color` meta and React rendering in `src/main.tsx` are left out: they are browser I/O.
- Image loading, canvas drawing and `getImageData` are left out. Their outcome is the input `ImageLoad`: a failure, no context, or the pixel buffer.
- The pointer spotlight handler (`src/main.tsx:104-114`) is left out. It writes floating-point percentages into DOM styles.
- Palette.AverageColor: accepts any buffer whose length is a multiple of 4, not only the 64×64 one `getImageData` returns. A length that is not a multiple of 4 is excluded: `getImageData` never returns one.
- Palette.Round: models `Math.round` on exact rationals. The percentages 0.9, 0.15, … are exact here, while in JavaScript they are doubles. Near a .5 boundary the browser's result can differ by one, so bit-for-bit IEEE-754 agreement is not claimed.
- Element boxes and `innerHeight` are exact `real`s, while the browser reports IEEE-754 doubles. The in-view test only compares them with `<` and `>`, so no rounding is involved.
- The intersection computation itself is left out: the 0.01 threshold, the `0px` root margin and asynchronous delivery belong to the browser. The callback takes the entries it would deliver.
- The real 600 ms delay, the event loop and the `passive` listener option are left out. Callback, sweep, timer and cleanup are discrete operations invoked in some order.
- App.RevealController.Init: requires that nothing is attached. React always runs the previous run's cleanup before the effect runs again. The no-container and no-observer branches return no cleanup, and `Teardown` of an idle controller changes nothing.
- App.RevealController.OnIntersection: requires a live observer, since a disconnected observer delivers no entries. App.RevealController.CheckAll requires the listeners attached, and App.RevealController.OnSettleTimer requires the timer pending: those are the only paths that run them.
