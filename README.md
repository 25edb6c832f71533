# Text splitting and scroll-progress mappings of the zigi-zagi landing page

The landing page script (`script.js`) mostly wires a 3D renderer, an animation timeline
engine and a smooth-scroll library to the page. Two pieces of logic sit behind that wiring,
and they are what this Dafny project models and proves things about:

1. **`splitText(element, type)`** prepares text for staggered reveal animations.
   - In `"chars"` mode it makes one entry per character of the trimmed text. A space becomes `&nbsp;`.
   - In `"lines"` mode it wraps the words greedily. The current line grows one word at a time. A line
     is closed when the candidate text is wider than the container and the line already holds a word.
   - The DOM is abstracted away. Each span is represented by the string written into it.
   - Rendering is an abstract measure `width: string -> nat`: the `offsetWidth` of the hidden
     measuring element holding that text. The container's `offsetWidth` is a fixed `limit: nat`.
2. **The `onUpdate` callback of the pinned product-overview section** maps scroll progress to:
   - header translations (`xPercent`), the circular mask radius and the divider scale,
     each piecewise linear and clamped;
   - the visibility of the model container and of the tooltips;
   - a rotation of the 3D model. The callback keeps the last applied angle in `currentRotation`
     and rotates the model by the difference only.

   Progress is a Dafny `real`, so every mapping is the exact-real formula.

Modules:

- `Wrappers`: `Option`, standing for `null`/`undefined`.
- `JsStrings`: `String.prototype.trim`, `split(" ")` and `join(" ")`.
- `LineWrap`: the `"lines"` loop and its specification.
- `SplitText`: `splitText` itself (`SplitElement`) and the `"chars"` loop.
- `ScrollProgress`: the pure progress mappings.
- `ModelRotation`: the rotation state, as classes.

How the `"lines"` mode is specified:

- `Run` is a fold of one loop turn (`Step`) over the words. Its state is the word groups of the
  lines already pushed, plus `currentLine`. `currentLineText` is a function of `currentLine`:
  `LineText` applies the source's rule `currentLineText ? currentLineText + " " + word : word`.
- `Wrap` is the resulting list of lines. The `WrapLines` method, which is the loop itself, is proved
  equal to it.
- `IsGreedy` is an independent reference definition of a greedy grouping:
  - the groups cover the words in order, and no group is empty;
  - every prefix of two or more words of a line fits;
  - every line ends because the first word of the next line did not fit after it.
- The reference is proved to have exactly one solution (`GreedyUnique`). `Wrap` is proved to be the
  texts of that solution (`WrapIsGreedy`).

Behaviour when a word is empty. The text can hold two consecutive spaces, and then `split(" ")`
gives an empty word. In that case the loop can:

- emit an empty line between two lines (`EmptyLineFromDoubleSpace`);
- drop one of the two spaces (`DoubleSpaceNotRebuilt`).

The reason is that `currentLineText` is then the empty string, which is falsy, so the next word
is added without a separating space. Line contents and reconstruction are therefore stated for text
whose split has no empty word. `JsStrings.WellSpaced` characterises exactly that text (see
`SplitHasNoEmptyWord`): it is non-empty, it does not start with a space, and every space is followed by a character that is not a space.

## Model

| member | source | states |
|---|---|---|
| JsStrings.Trim | script.js:11 | The text is leading whitespace, then the result, then trailing whitespace (ECMAScript WhiteSpace and LineTerminator characters). The result neither starts nor ends with whitespace. |
| JsStrings.TrimIdempotent | script.js:11 | Trimming a trimmed text changes nothing. |
| JsStrings.Split | script.js:30 | `split(" ")` gives at least one piece, and no piece contains a space. The first piece is empty exactly when the text is empty or starts with a space. |
| JsStrings.JoinSplit | script.js:30 | Joining the pieces of `split(" ")` with `" "` gives back the text. |
| JsStrings.SplitJoin | script.js:30 | Splitting a join of space-free words gives back the words. |
| JsStrings.SplitHasNoEmptyWord | script.js:30 | No piece of the split is empty exactly when the text is well spaced: non-empty, not starting with a space, and every space followed by a non-space. |
| JsStrings.JoinAppend | script.js:30 | Joining two non-empty word lists puts exactly one space between their joins. |
| LineWrap.Step | script.js:43-61 | The candidate text is `Extend(LineText(currentLine), word)`: `LineText` is `currentLineText` and `Extend` the `testText` ternary. One turn either appends the word to `currentLine`, or closes `currentLine` and starts a new line holding just the word. It closes a line exactly when the line holds a word and the candidate text is wider than the container. Closed lines stay non-empty. |
| LineWrap.Run | script.js:42-62 | After the `forEach`, no closed line is empty. `currentLine` is empty exactly when there are no words, and otherwise ends with the last word. There are never more closed lines plus words in `currentLine` than words. |
| LineWrap.Wrap | script.js:42-73 | The pushed lines number at most the words, and no words give no lines. |
| LineWrap.RunIsGreedy | script.js:42-62 | The groups the loop builds (the closed lines and `currentLine`) satisfy the greedy reference. |
| LineWrap.GreedyUnique | script.js:43-61 | Two greedy groupings of the same words are equal. |
| LineWrap.WrapIsGreedy | script.js:42-73 | The pushed lines are the texts of the greedy grouping, minus a final line whose text is empty (the guarded final push). |
| LineWrap.WrapJoinsGroups | script.js:42-73 | With no empty word, line i is the i-th greedy group joined with single spaces. |
| LineWrap.WrapRebuildsText | script.js:30-73 | With no empty word: joining the lines with `" "` gives back the words joined with `" "`; no line is empty; there is a line exactly when there is a word. |
| LineWrap.WrapOverflowIsOneWord | script.js:43-46 | For any words, doubled spaces included, a line wider than the container is a single word of the text. Every line of two or more words passed the width test. |
| LineWrap.WrapBreaksForced | script.js:43-57 | With no empty word (and words free of spaces, as `split(" ")` gives them), each line is followed by a line whose first word, added after a space, would make it wider than the container. |
| LineWrap.FirstWordNeverBreaks | script.js:43-46 | A one-word text gives that word as its only line whatever its width. An empty word gives no line, because the final push is guarded (lines 64-73). |
| LineWrap.EmptyLineFromDoubleSpace | script.js:43-73 | For words `a`, empty, `b`: when neither `a` plus a space nor `b` alone fits, the lines are `a`, an empty line, and `b`. |
| LineWrap.DoubleSpaceNotRebuilt | script.js:43-73 | For the same words: when `a` plus a space does not fit but `b` does, the lines are `a` and `b`, so joining them does not rebuild the doubled space. |
| LineWrap.WrapLines | script.js:29-76 | The `forEach` loop and the final push compute `Wrap`. With no empty word, the lines rejoin to the words and none is empty. |
| SplitText.CharEntry | script.js:23 | A character's entry is `&nbsp;` exactly when the character is a space, and it reads back as that character. |
| SplitText.Mode | script.js:8 | The type is `"chars"` when it is not given; a given type is used as is. |
| SplitText.UnescapeEntries | script.js:16-27 | Reading back the entries of a text, in order, gives the text. |
| SplitText.SplitChars | script.js:15-28 | One entry per character, in order: `&nbsp;` for a space, the character otherwise. Unescaping the entries gives the text back. |
| SplitText.SplitElement | script.js:8-79 | A null element gives empty `chars` and `lines`, and so does an unrecognised type. `"chars"` gives only `chars`, one entry per trimmed character. `"lines"` gives only `lines`, the wrap of the trimmed text's words. Empty text gives no line. Well-spaced text is rebuilt by joining the lines. |
| ScrollProgress.HeaderProgress | script.js:343 | Clamped to [0,1]: 0 up to 0.05, 1 from 0.35, and linear in between. |
| ScrollProgress.Header1XPercent | script.js:344-347 | In [-100,0]: 0 up to progress 0.05 and -100 from 0.35. Both breakpoints meet these values. |
| ScrollProgress.MaskSize | script.js:349-354 | In [0,100]: 0 up to 0.2 and 100 from 0.3. Both breakpoints meet these values. |
| ScrollProgress.Header2XPercent | script.js:359-366 | In [-200,100]: 100 up to 0.15 and -200 from 0.5. |
| ScrollProgress.ScaleX | script.js:386-391 | In [0,100]: 0 up to 0.45 and 100 from 0.65. |
| ScrollProgress.DividerScale | script.js:392 | The divider's scale is `scaleX / 100`, in [0,1]. |
| ScrollProgress.ContainerTweenAt | script.js:369-384 | A tween exists only when the model container exists. It is visible with opacity 1 exactly when progress >= 0.5, and hidden with opacity 0 otherwise. |
| ScrollProgress.TooltipY | script.js:396 | A tooltip's parts are at `"0%"` exactly when progress >= its trigger, and at `"125%"` otherwise. |
| ScrollProgress.TooltipOffsets | script.js:190-207 | One offset per tooltip. Tooltip i is shown exactly when progress reaches its trigger (0.65, then 0.85). |
| ScrollProgress.FrameAt | script.js:342-399 | Every parameter of one callback is within its range; a container tween is present exactly when the container is. |
| ScrollProgress.Header1Monotone | script.js:343-346 | The first header only moves left as progress grows. |
| ScrollProgress.MaskMonotone | script.js:349-354 | The mask only opens as progress grows. |
| ScrollProgress.Header2Monotone | script.js:359-365 | The second header only moves left as progress grows. |
| ScrollProgress.ScaleXMonotone | script.js:386-391 | The dividers only grow as progress grows. |
| ScrollProgress.ModelShownAfterHeader2 | script.js:368-376 | The model container is shown only once the second header has fully slid out (`xPercent` -200). |
| ScrollProgress.TooltipsAfterDividers | script.js:386-399 | A tooltip is shown only when the dividers are fully drawn. |
| ScrollProgress.TooltipsInOrder | script.js:190-207 | The second tooltip is shown only when the first is. |
| ModelRotation.RotationTarget | script.js:403-404 | For progress in [0.5,1] the target lies in [0, 3π]. It is 0 at 0.5 and 3π at 1. |
| ModelRotation.RotationTargetMonotone | script.js:403-404 | The target grows with progress. |
| ModelRotation.Model3D.constructor | script.js:299-301 | A freshly loaded model has not been turned yet. |
| ModelRotation.Model3D.RotateOnY | script.js:407 | A rotation about the y axis adds its angle to the model's total turn. |
| ModelRotation.ProductOverview.constructor | script.js:231-233 | `currentRotation` starts at 0, with no model loaded. |
| ModelRotation.ProductOverview.LoadModel | script.js:299-301 | Loading sets a fresh model with no rotation applied and keeps `currentRotation`. |
| ModelRotation.ProductOverview.OnUpdate | script.js:342-411 | The frame is `FrameAt(progress)`. The model turns by exactly `target - currentRotation`, and only when the model exists, progress >= 0.5 and the difference exceeds 0.001 in absolute value; `currentRotation` then becomes the target. The total angle applied to the model always equals `currentRotation`. After the call `currentRotation` is within 0.001 of the target. For progress in [0,1], `currentRotation` stays in [0, 3π]. |

## Left out

- DOM mutation is not modelled: span creation, classes, inline styles, the `innerHTML`/`textContent` writes, the clearing of the element (which also happens for an unrecognised type), and the hidden measuring `div`. The spans are the returned strings.
- The element's `offsetWidth` is taken as a constant `limit`. The source reads it again at every word, while line spans are being appended.
- Measuring is the abstract function `width`. Fonts and layout are not modelled.
- `SplitText.SplitChars`: characters are Unicode scalar values. JavaScript's `split("")` splits by UTF-16 code unit, so a character outside the Basic Multilingual Plane gives two entries in the source and one in the model.
- The HTML parsing of the `innerHTML` written per character is not modelled. A browser reads `&nbsp;` back as U+00A0 (no-break space), not U+0020. `Unescape` reads it back as the space it replaced, so `SplitText.CharEntry` and `SplitText.UnescapeEntries` show that no character is lost, not what the DOM's `textContent` returns.
- The three.js scene, renderer, lights, GLTF loading and model placement (`setupModel`) are left out. They are foreign library calls and floating-point geometry.
- The GSAP timelines and tween easings and the Lenis smooth-scroll setup are left out. They are external animation engines.
- `setupIcons` with its `setTimeout` retry, the `requestAnimationFrame` loops and the resize handler are left out. They are event-loop scheduling and DOM I/O.
- The `clipPath` string `circle(N% at 50% 50%)` is not modelled, because it needs number-to-string formatting. Only `MaskSize` is.
- The tween targets (selectors), their durations and easing options, and `animOptions` are not modelled. For the container tween the duration is kept and the easing is not.
- All mappings are over exact reals. IEEE-754 rounding is not modelled, and `Math.PI` is the decimal 3.141592653589793.
- `ModelRotation.Model3D.RotateOnY`: the model's orientation is reduced to the total angle turned about its y axis. The quaternion composition of `rotateOnAxis` is not modelled.
- `ModelRotation.ProductOverview.LoadModel` requires that no model is loaded yet, because the loader's callback runs once. The error callback only logs and is not modelled.
