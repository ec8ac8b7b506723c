# Expiring cache, `appendIDs` and `transformWords` in Dafny

A Dafny model of the behaviour in two pages of the *Swift by Sundell* tutorial playground.

- **Generics page** (module `Generics`, `generics.dfy`):
  - `Cache<Key, Value>` is a class. Its field `values` maps each key to a `Container` that holds the value and its expiration instant.
  - `insert(_:forKey:)` stores the value with expiration `now + 1000`. Any earlier entry for the key is replaced.
  - `value(forKey:)` returns the value while the stored expiration is strictly after `now`. Otherwise it removes the entry in place and returns nothing, so eviction is lazy.
  - The two methods are proved against the pure transition functions `InsertEntry` and `ReadEntry`. All properties are stated about those functions.
  - `Live(m, now)` is what a reader can see at time `now`: the values of the entries that have not expired.
  - `Replay` runs a whole sequence of calls, so that properties about later reads can be stated.
  - `String.appendIDs(of:)` is the method `AppendIDs`. Its loop appends `" " + id` for each element, and it is proved equal to `s + IdSuffix(values, id)`.
- **Closures page** (module `Closures`, `closures.dfy`):
  - `String.transformWords(using:)` is the method `TransformWords`.
  - `split(separator: " ")` is the function `Split`. It returns the maximal runs of non-space characters and omits empty pieces, as Swift does by default.
  - The loop that fills `results` is proved to produce `MapWords(f, words)`.
  - `joined(separator: " ")` is `Join`.
  - With the identity closure, the result is shown to be the canonical form of the input. The canonical form has no leading, trailing or doubled spaces and the same words in the same order.

Time (`Date()`) is an integer argument `now`. The caller-supplied closure is a Dafny function `f: string -> string`. The string form of an element's `id` is a function argument `id: T -> string`.

## Model

| member | source | states |
|---|---|---|
| `Generics.InsertEntry` | SwiftBySundell-tutorials.playground/Pages/Generics.xcplaygroundpage/Contents.swift:45-50 | after an insert, `key` holds the new value with expiration `now + 1000`, the key set grows by `key` only, and every other entry is unchanged |
| `Generics.ReadEntry` | SwiftBySundell-tutorials.playground/Pages/Generics.xcplaygroundpage/Contents.swift:52-59 | a read returns `Some(v)` exactly when `key` is live (expiration strictly after `now`), and `v` is then its value; otherwise it returns `None`. Only an expired `key` is removed, and no remaining entry is altered, so the TTL is never extended |
| `Generics.ReadKeepsLiveView` | SwiftBySundell-tutorials.playground/Pages/Generics.xcplaygroundpage/Contents.swift:52-58 | lazy eviction is invisible: a read leaves unchanged the set of values a reader can see at that time |
| `Generics.InsertUpdatesLiveView` | SwiftBySundell-tutorials.playground/Pages/Generics.xcplaygroundpage/Contents.swift:45-49 | until `now + 1000`, the visible contents after an insert are the earlier ones with `key` mapped to the new value |
| `Generics.InsertThenReadLive` | SwiftBySundell-tutorials.playground/Pages/Generics.xcplaygroundpage/Contents.swift:45-58 | a read at any `t < now + 1000` after `insert(v, key)` returns `v` and leaves the table unchanged |
| `Generics.InsertThenReadExpired` | SwiftBySundell-tutorials.playground/Pages/Generics.xcplaygroundpage/Contents.swift:45-56 | a read at any `t >= now + 1000` (equality included) returns nothing, and the table is as if `key` had never been inserted |
| `Generics.ExpirationIsStrict` | SwiftBySundell-tutorials.playground/Pages/Generics.xcplaygroundpage/Contents.swift:54-58 | the guard `date > now` is strict: a read at exactly the expiration instant returns nothing and removes the entry, and a read at any earlier time returns the value and changes nothing |
| `Generics.LastWriteWins` | SwiftBySundell-tutorials.playground/Pages/Generics.xcplaygroundpage/Contents.swift:46-49 | a second insert under the same key replaces both the value and the expiration |
| `Generics.Replay` | SwiftBySundell-tutorials.playground/Pages/Generics.xcplaygroundpage/Contents.swift:42-60 | a sequence of calls gives one answer per call, and an insert gives no value |
| `Generics.AbsentUntilInserted` | SwiftBySundell-tutorials.playground/Pages/Generics.xcplaygroundpage/Contents.swift:43-56 | an absent key (never inserted, as in a fresh cache, or evicted) stays absent, and every read of it returns nothing, through any calls that do not insert it, at any times |
| `Generics.EntryKeptOrGone` | SwiftBySundell-tutorials.playground/Pages/Generics.xcplaygroundpage/Contents.swift:45-58 | calls that never insert a key either leave its entry exactly as it was (no read refreshes it) or remove it |
| `Generics.ExpiresAfterLifetime` | SwiftBySundell-tutorials.playground/Pages/Generics.xcplaygroundpage/Contents.swift:45-56 | after `insert(v, key)` at `now`, and any later calls that do not insert `key` again (writes to other keys, earlier reads of `key`), a read of `key` at any `t >= now + 1000` returns nothing |
| `Generics.EvictionIsStable` | SwiftBySundell-tutorials.playground/Pages/Generics.xcplaygroundpage/Contents.swift:53-56 | a read of an expired entry returns nothing, and after it every read of that key returns nothing until the key is inserted again |
| `Generics.Cache.constructor` | SwiftBySundell-tutorials.playground/Pages/Generics.xcplaygroundpage/Contents.swift:43 | a new cache is empty, so no key is visible at any time |
| `Generics.Cache.Insert` | SwiftBySundell-tutorials.playground/Pages/Generics.xcplaygroundpage/Contents.swift:45-50 | the dictionary after the call is `InsertEntry` of the dictionary before it |
| `Generics.Cache.ValueFor` | SwiftBySundell-tutorials.playground/Pages/Generics.xcplaygroundpage/Contents.swift:52-59 | returns the value exactly when the key is live. The answer and the new dictionary are those of `ReadEntry`, and the visible contents are unchanged |
| `Generics.IdSuffixAppend` | SwiftBySundell-tutorials.playground/Pages/Generics.xcplaygroundpage/Contents.swift:86-90 | the text appended for `xs + ys` is the text for `xs` followed by the text for `ys`, so order is kept element by element |
| `Generics.IdSuffixLength` | SwiftBySundell-tutorials.playground/Pages/Generics.xcplaygroundpage/Contents.swift:86-90 | each element adds one space plus the length of its id |
| `Generics.AppendIDs` | SwiftBySundell-tutorials.playground/Pages/Generics.xcplaygroundpage/Contents.swift:85-91 | the result is `s` followed by `" " + id(x)` for each `x` in order. `s` stays a prefix, and an empty array leaves `s` unchanged |
| `Closures.WordLength` | SwiftBySundell-tutorials.playground/Pages/Closures.xcplaygroundpage/Contents.swift:29 | the length of the longest prefix that holds no space: no space before it, and a space (or the end) right after it |
| `Closures.Split` | SwiftBySundell-tutorials.playground/Pages/Closures.xcplaygroundpage/Contents.swift:29 | every word is non-empty and holds no space, and there are no words exactly when the input is empty or only spaces. How spaces separate words is stated by `SplitAtSpace` |
| `Closures.SplitAtSpace` | SwiftBySundell-tutorials.playground/Pages/Closures.xcplaygroundpage/Contents.swift:29 | every space separates words: the words of `a + " " + b` are the words of `a` followed by those of `b`, so leading, trailing and repeated spaces give no empty pieces |
| `Closures.SplitKeepsNonSpaces` | SwiftBySundell-tutorials.playground/Pages/Closures.xcplaygroundpage/Contents.swift:29 | the words, laid end to end, are exactly the non-space characters of the input, in order |
| `Closures.Join` | SwiftBySundell-tutorials.playground/Pages/Closures.xcplaygroundpage/Contents.swift:38 | joining no pieces gives `""`; otherwise the first piece is a prefix of the result, followed by a space when more pieces follow. `SplitJoin` shows `Split` inverts it on words, and `JoinLength` gives its length |
| `Closures.MapWords` | SwiftBySundell-tutorials.playground/Pages/Closures.xcplaygroundpage/Contents.swift:30-35 | one result per word, and result `i` is `f(word i)` |
| `Closures.TransformWords` | SwiftBySundell-tutorials.playground/Pages/Closures.xcplaygroundpage/Contents.swift:26-40 | the result is the single-space join of `f` applied to each word of the split, in order. An empty or all-space input gives `""` whatever `f` is |
| `Closures.SplitJoin` | SwiftBySundell-tutorials.playground/Pages/Closures.xcplaygroundpage/Contents.swift:29-38 | splitting the single-space join of non-empty, space-free words gives back those words |
| `Closures.JoinIsCanonical` | SwiftBySundell-tutorials.playground/Pages/Closures.xcplaygroundpage/Contents.swift:38 | joining such words gives a string with no leading, trailing or doubled space |
| `Closures.CanonicalIsJoinOfSplit` | SwiftBySundell-tutorials.playground/Pages/Closures.xcplaygroundpage/Contents.swift:29-38 | a string with no leading, trailing or doubled space is the join of its own words |
| `Closures.IdentityNormalizes` | SwiftBySundell-tutorials.playground/Pages/Closures.xcplaygroundpage/Contents.swift:29-38 | with the identity closure, the result has its edge spaces trimmed and its runs of spaces collapsed: it is canonical and has the input's words in the same order |
| `Closures.IdentityKeepsCanonical` | SwiftBySundell-tutorials.playground/Pages/Closures.xcplaygroundpage/Contents.swift:29-38 | with the identity closure, an input with single inner spaces and no edge spaces comes back unchanged |
| `Closures.JoinLength` | SwiftBySundell-tutorials.playground/Pages/Closures.xcplaygroundpage/Contents.swift:38 | joining `n >= 1` pieces gives the sum of their lengths plus `n - 1` separators |
| `Closures.TransformedLength` | SwiftBySundell-tutorials.playground/Pages/Closures.xcplaygroundpage/Contents.swift:29-38 | for an input with at least one word, the result length is the sum of the `f(word)` lengths plus one separator between each pair of words |

## Left out

- `Date()` and `addingTimeInterval(1000)`: wall-clock time is floating-point and non-deterministic. It is an integer argument `now` here, and the offset is the integer constant `Lifetime = 1000`.
- Swift `Hashable` hashing: a key needs only equality in a Dafny `map`.
- The class's reference identity and aliasing: no two caches share a dictionary in the source, so none do here.
- `delay(by:on:closure:)` and `DispatchQueue.asyncAfter`: asynchronous scheduling.
- `ProfileViewController` and `UIKit`: UI lifecycle.
- The concrete closures (`lowercased()`, `capitalized`, `capitalize(word:)`, the emoji append): Unicode case mapping from the standard library. `f` is an arbitrary pure function. Closures with side effects are not modelled.
- `Substring` and `String` are both `seq<char>`. Swift compares grapheme clusters and Dafny compares characters. The two agree on the separator `" "`, except where the space is part of a larger grapheme cluster under the Unicode segmentation rules (UAX #29). That happens when the space is followed by an Extend, SpacingMark or ZWJ character, such as a combining mark, an emoji modifier, U+200C or some Thai and Lao vowels, or is preceded by a Prepend character. In those cases Swift's `split` does not split there and `Split` does.
- `Identifiable`, `UUID`, string interpolation of an `id`, `type(of:)`, the structs `Animal`, `Article` and `Tag`, and the top-level demo statements: these have no behaviour to verify. The string form of an `id` is the argument `id`.
