# Portfolio page: section tracker, skill animator and text reveal, in Dafny

A model of the behavioural core of a single-page portfolio (a Next.js client
component and the text-decrypt effect it uses), with its properties proved.

- **Section tracker** (`SectionTracker`, `section_tracker.dfy`). The page keeps one
  state cell, `activeSection`, which starts as `"header"`. It has two writers,
  and whichever runs last wins:
  - the intersection callback of each observed section;
  - the scroll handler, which walks the four sections from last to first and
    picks the first attached one whose top is at or above `scrollY + innerHeight / 3`.

  DOM elements are *anchors*: `None` while a section's ref is null,
  `Some(offsetTop)` once it is attached. The class `Tracker` holds the state
  cell and the set of observed sections. `LastPassed` is the reference
  definition of the scroll choice. `ScrollRequest` models `scrollToSection`.
- **Staged skill animator** (`SkillAnimator`, `skill_animator.dfy`). Half a second
  after mount, one timeout per skill is scheduled, 100 ms apart in list order.
  Each one merges `name -> level` into the `skillAnimations` map, and a bar
  shows `skillAnimations[name] || 0`. Timers are `Timeout` values that the host
  fires. `SkillBars` is the state cell.
- **Text reveal** (`TextReveal`, `text_reveal.dfy`). The class `TextEncrypted`
  works as follows:
  - `outputText` grows by one character of the fixed `text` per tick until it
    equals `text`;
  - the unrevealed rest is shown as a mask of glyphs from a 28-character alphabet;
  - a single space is shown before mount.

  The interval timer is the `Tick` method. `Math.random` is an unconstrained
  choice of alphabet index.
- **Pure helpers** (`PortfolioText`, `portfolio_text.dfy`):
  - the theme toggle;
  - the two-digit project label, `String(index + 1).padStart(2, "0")`;
  - the `currentWork.split(" at ")` line.
- `Wrappers` (`wrappers.dfy`) holds `Option`.

## Model

| member | source | states |
|---|---|---|
| `SectionTracker.ReferencePoint` | novera-main/components/portfolio-client.jsx:91 | the reference point lies in the viewport, a third of its height below the scroll offset |
| `SectionTracker.Passed` | novera-main/components/portfolio-client.jsx:95-98 | a section whose ref is null is never passed; an attached one is passed exactly when its top is at or above the reference point |
| `SectionTracker.LastPassed` | novera-main/components/portfolio-client.jsx:93-103 | the scroll choice is an attached section whose top is at or above the reference point, and no later section passes that test; `None` exactly when no attached section passes |
| `SectionTracker.ScrollChoiceMonotone` | novera-main/components/portfolio-client.jsx:93-101 | with fixed anchors, a larger reference point (further down the page) never selects an earlier section; if some section passes at the smaller one, some section passes at the larger one |
| `SectionTracker.ScrollExample` | novera-main/components/portfolio-client.jsx:91-101 | tops 0/400/900/1500, scroll 500, viewport 600: the reference point is 700 and "skills" is chosen |
| `SectionTracker.IndexOf` | novera-main/components/portfolio-client.jsx:116-117 | looking up a known section id yields the position that holds that id |
| `SectionTracker.ScrollRequest` | novera-main/components/portfolio-client.jsx:116-121 | `scrollToSection` asks for a scroll exactly when the id's anchor is attached, and the request targets that id's anchor; the active section plays no part |
| `SectionTracker.ObservedSections` | novera-main/components/portfolio-client.jsx:76-88 | an observer watches a section iff its ref was attached when observation was set up |
| `SectionTracker.CommittedAnchors` | novera-main/components/portfolio-client.jsx:123-125 | before `mounted` the page renders nothing, so no ref is attached; afterwards every section's anchor is present |
| `SectionTracker.FirstCommitObservesNothing` | novera-main/components/portfolio-client.jsx:76-125 | as written, the once-only effect runs after the empty first commit: no section is observed and the mount-time scroll check selects nothing |
| `SectionTracker.MountedCommitObservesAll` | novera-main/components/portfolio-client.jsx:76-88 | set up over a mounted commit, observation covers all four sections |
| `SectionTracker.Tracker.constructor` | novera-main/components/portfolio-client.jsx:12 | the active section starts as "header", the first section, and is one of the four ids |
| `SectionTracker.Tracker.ObserveSections` | novera-main/components/portfolio-client.jsx:76-88 | the observed set becomes exactly the attached sections; the active section is untouched |
| `SectionTracker.Tracker.OnIntersect` | novera-main/components/portfolio-client.jsx:77-81 | an intersecting entry sets the active section to its own id; a non-intersecting one changes nothing; the value stays one of the four ids |
| `SectionTracker.Tracker.OnScroll` | novera-main/components/portfolio-client.jsx:90-104 | the reverse walk with `break` sets the active section to the `LastPassed` choice, skipping detached sections, and leaves it unchanged when nothing passes |
| `SkillAnimator.Schedule` | novera-main/components/portfolio-client.jsx:36-48 | one timeout per skill in list order; the first is due at 500 ms, each next one 100 ms later, so start times strictly increase even for equal levels |
| `SkillAnimator.AnimateSkills` | novera-main/components/portfolio-client.jsx:36-46 | the `forEach` loop produces exactly that schedule |
| `SkillAnimator.Merge` | novera-main/components/portfolio-client.jsx:40-43 | firing a skill adds its key with its level; every other key keeps its value, and no other key appears |
| `SkillAnimator.FireAll` | novera-main/components/portfolio-client.jsx:38-44 | after the timeouts fire in order, no key is lost, every fired name is present, and the last fired name holds its level |
| `SkillAnimator.BarWidth` | novera-main/components/portfolio-client.jsx:315 | a bar shows its stored level, or 0 when its key is absent |
| `SkillAnimator.FireAllLevels` | novera-main/components/portfolio-client.jsx:38-45 | after a run of timeouts, a key is present iff it was present before or some timeout names it; it holds the level of the last timeout naming it; untouched keys keep their values |
| `SkillAnimator.AnimatedBar` | novera-main/components/portfolio-client.jsx:38-44 | once all scheduled timeouts fired from `{}`, a uniquely named skill's bar shows its level |
| `SkillAnimator.UnscheduledBar` | novera-main/components/portfolio-client.jsx:315 | a name that no skill carries keeps width 0 after all timeouts fired |
| `SkillAnimator.SkillBars.constructor` | novera-main/components/portfolio-client.jsx:13 | the map starts empty, so every bar starts at width 0 |
| `SkillAnimator.SkillBars.Fire` | novera-main/components/portfolio-client.jsx:39-43 | the state becomes the merge of the old map with the skill; its bar shows its level and every other bar is unchanged |
| `PortfolioText.ToggleTheme` | novera-main/components/portfolio-client.jsx:52-54 | the result is "light" exactly when the resolved theme is "dark", otherwise "dark"; it always differs from the resolved theme |
| `PortfolioText.ToggleThemeInvolution` | novera-main/components/portfolio-client.jsx:52-54 | toggling twice returns "light" or "dark" unchanged |
| `PortfolioText.Decimal` | novera-main/components/portfolio-client.jsx:356 | `String(n)` is a non-empty digit string without a leading zero, one digit exactly when n < 10 |
| `PortfolioText.DecimalRoundTrip` | novera-main/components/portfolio-client.jsx:356 | reading `String(n)` back as decimal gives n |
| `PortfolioText.PadStart` | novera-main/components/portfolio-client.jsx:356 | the result is as long as the width or the string, whichever is larger; it ends with the string and starts with fill characters only |
| `PortfolioText.ProjectLabel` | novera-main/components/portfolio-client.jsx:356 | the label has at least two digits; a one-digit number gets a leading "0" and a number of two or more digits is unchanged |
| `PortfolioText.ProjectLabelValue` | novera-main/components/portfolio-client.jsx:356 | the label denotes index + 1 |
| `PortfolioText.ProjectLabelInjective` | novera-main/components/portfolio-client.jsx:340-356 | distinct projects get distinct labels |
| `PortfolioText.FindFrom` | novera-main/components/portfolio-client.jsx:240 | finds the first occurrence of the separator at or after a position, or reports that there is none |
| `PortfolioText.Split` | novera-main/components/portfolio-client.jsx:240-257 | `split` yields at least one piece; no piece contains the separator; no piece but the last, followed by the separator, holds an occurrence starting inside the piece, so each cut is at the leftmost occurrence after the previous cut |
| `PortfolioText.SplitJoin` | novera-main/components/portfolio-client.jsx:240-257 | joining the pieces with the separator restores the string |
| `PortfolioText.SplitCurrentWork` | novera-main/components/portfolio-client.jsx:240-257 | piece 0 is the text before the first " at " (the whole string when there is none); piece 1 is absent exactly when there is no " at ", and otherwise is the text after the first " at " up to the second one, or to the end when there is no second one |
| `PortfolioText.RenderWorkLine` | novera-main/components/portfolio-client.jsx:240-257 | the paragraph shows the role, then " at ", then the employer (nothing when it is absent) |
| `PortfolioText.RenderWorkLineFaithful` | novera-main/components/portfolio-client.jsx:240-257 | a line with exactly one " at " is shown verbatim; one without any is shown with " at " appended |
| `PortfolioText.RenderWorkLineTruncates` | novera-main/components/portfolio-client.jsx:240-257 | with a second " at " there are at least three pieces, and the paragraph shows the value only up to that second " at " |
| `TextReveal.IntervalOrDefault` | novera-main/components/decrypted-text.jsx:10 | the interval is 50 when the prop is absent and the given value otherwise |
| `TextReveal.Step` | novera-main/components/decrypted-text.jsx:24-25 | a tick on incomplete output appends exactly the next character of the text; on complete output it changes nothing; it keeps the output a prefix of the text |
| `TextReveal.Ticks` | novera-main/components/decrypted-text.jsx:22-29 | over n ticks the output only grows, stays a prefix of the text when it starts as one, and gains one character per tick until it is as long as the text |
| `TextReveal.TicksReveal` | novera-main/components/decrypted-text.jsx:22-29 | from a prefix of the text, n ticks give the prefix n characters longer, capped at the whole text |
| `TextReveal.RevealCompletes` | novera-main/components/decrypted-text.jsx:22-25 | from "", exactly `text.length` ticks reveal the text, and no fewer do |
| `TextReveal.RevealIsTerminal` | novera-main/components/decrypted-text.jsx:22-28 | once the output equals the text, further ticks change nothing |
| `TextReveal.TextEncrypted.constructor` | novera-main/components/decrypted-text.jsx:7-13 | output starts as "", not mounted, interval defaulted, output a prefix of the text |
| `TextReveal.TextEncrypted.TimerStarted` | novera-main/components/decrypted-text.jsx:22-23 | the effect starts an interval exactly while the output is shorter than the text |
| `TextReveal.TextEncrypted.Mount` | novera-main/components/decrypted-text.jsx:15-17 | mounting sets the flag and leaves the output alone |
| `TextReveal.TextEncrypted.Tick` | novera-main/components/decrypted-text.jsx:23-29 | a tick applies `Step`, keeps the prefix invariant, and clears the interval exactly when the output was already complete |
| `TextReveal.TextEncrypted.Remainder` | novera-main/components/decrypted-text.jsx:35-42 | the mask has one glyph per unrevealed character ("" once complete), each from the 28-glyph alphabet |
| `TextReveal.TextEncrypted.Render` | novera-main/components/decrypted-text.jsx:44-53 | before mount a single space is shown. After mount, output plus mask is exactly as long as the text, starts with the output, and has alphabet glyphs after it. Once complete, it is the text itself |

## Findings

| source | as written | input that shows it | evidently intended | confidence | as-written member | corrected member |
|---|---|---|---|---|---|---|
| novera-main/components/portfolio-client.jsx:76-125 | The observer effect has `[]` dependencies, so it runs once, after the first commit. In that commit the page returns `null` because `mounted` is still false. Every `ref.current` is null, no observer observes anything, and the intersection writer never fires. The mount-time `handleScroll()` also selects nothing. | Any page load: the first commit has anchors `[None, None, None, None]` | Observers attached to all four section elements once they are in the DOM, e.g. an effect that depends on `mounted` | medium; not executed | `SectionTracker.FirstCommitObservesNothing` | `SectionTracker.MountedCommitObservesAll` |

## Left out

- Teardown is not modelled. This covers observer `disconnect`, listener removal, the effects' `clearTimeout`/`clearInterval`, and state updates after unmount. The skill effect's cleanup clears only the outer 500 ms timer (portfolio-client.jsx:49), not the per-skill timeouts. The model does not claim that pending timeouts are cancelled.
- Real-time timer semantics are not modelled. Interval ticks are `Tick` calls and skill timeouts are `Fire` calls made by the host. `FireAll` fires them in list order, which is the order their strictly increasing due times give.
- `IntersectionObserver` thresholds and root margins (portfolio-client.jsx:71-74) are not modelled. The browser decides when an entry intersects, so `isIntersecting` is an input.
- Scroll events and `scrollIntoView` are not modelled. `scrollY` and `innerHeight` are inputs. `ReferencePoint` computes the reference point exactly as a real, without floating-point rounding. A scroll request is the index of the anchor asked to scroll.
- `Math.random` (decrypted-text.jsx:40) is an unconstrained choice of alphabet index. Its distribution is not modelled.
- A change of the `text` or `interval` props mid-reveal is not modelled: each component's `text` is fixed. The prefix invariant is stated for a fixed text.
- `TextReveal.TextEncrypted.Tick`: the source tests the closure's `outputText` but appends to the latest state `prev`. The model uses one value for both. This assumes each interval ticks at most once before the effect restarts on the change of `outputText`. A second tick of a stale interval is not modelled: on the last character it would append `text[text.length]`, which is `undefined` (text "ab" would show "abundefined").
- `CountUp`'s eased count and its seconds-based delay (portfolio-client.jsx:302-307) are library internals and are not modelled.
- Skill levels are integers. Only falsy levels (`NaN`, `""`, `null`, `undefined`) would be mapped to 0 by `|| 0`; truthy non-numeric levels such as `"90"` would render as `"90%"`. Neither kind is modelled.
- Skill names that are names of `Object.prototype` members ("constructor", "toString", "__proto__") are not modelled. For them `skillAnimations[name]` is inherited and truthy before any timeout fires, so the bar would not start at width 0.
- Text outside the Basic Multilingual Plane is not modelled. JavaScript indexes strings by UTF-16 code unit, so the source reveals "hi😀" in four ticks, one half of the surrogate pair at a time. A Dafny `char` is a whole Unicode scalar value, so the model's `"hi😀"` takes three. For text inside that plane, one `char` is one code unit and the two agree.
- Theme persistence and the internals of the theme library are not modelled. The resolved theme is an `Option<string>` input.
- The hover highlight state `hoveredProject`, the colour table, the JSX markup and the settings contents are presentation and are not modelled.
- app/page.jsx is not part of this model. It only copies settings into static page metadata.
