# andwass::string_view in Dafny

A model of `andwass::string_view`. It is a non-owning view made of a
pointer (`data_`) and a length (`size_`) over caller-owned characters. Unlike
`std::string_view` it clamps out-of-range arguments: `substr`,
`remove_prefix` and `remove_suffix` never fail.

The model has three modules:

- `Text` (text.dfy) holds the specification over plain `seq<char>`:
  - `Occurs(s, t, k)`: `t` occurs in `s` at `k`;
  - the forward scan `FirstFrom` and `FirstOf`;
  - the backward scan `LastBelow` and `LastOf`;
  - the list of all occurrences, `OccurrencesFrom`;
  - the repeated, overlap-counting search `NthFrom`;
  - the lexicographic order `LexFrom` and `Lex`.

  Each of these comes with lemmas that characterise it: least or greatest
  occurrence, sortedness, the n-th occurrence, antisymmetry, transitivity.
- `Andwass` (string_view.dfy) holds the type itself. The storage is one
  immutable `Memory` (`seq<char>`). A pointer is `Null` or an `Addr(off)` into
  it, so pointer identity becomes offset equality. A view is the value
  `View(data, size)`; its `Contents(mem)` is the characters it covers.
  - The single-expression members are functions: accessors, `substr`,
    `substr_starting_with`, `starts_with`, `ends_with`, `contains`, `==`,
    `!=`, and the constructors.
  - The loops are methods proved against the `Text` functions: both `find`s,
    both `rfind`s, `find_nth` and `compare`.
  - The in-place trims `remove_prefix` and `remove_suffix` live in the class
    `StringView`, whose two fields they update. `find_nth` trims a local
    `StringView` copy, as the source does.
- `StringViewTests` (tests.dfy) restates the assertions of
  `tests/string_view.cpp` as lemmas, and as methods that call the model's
  methods on the same literals.

`npos` is `NPOS = 2^64 - 1`. A well-formed view has `size < NPOS`, so no index
or size reaches the sentinel.

## Model

| member | source | states |
|---|---|---|
| Text.FirstFromSpec | include/andwass/string_view.hpp:239-246 | the left-to-right scan from `i` stops at the least occurrence at or after `i`; no earlier position from `i` on matches |
| Text.FirstOfSpec | include/andwass/string_view.hpp:223-247 | `find`'s answer is an occurrence and no smaller index matches; it is `npos` exactly when the needle occurs nowhere |
| Text.FirstOfUnique | include/andwass/string_view.hpp:228-247 | an occurrence with no earlier one (or `npos` with none below it) is the value of the forward search |
| Text.FirstOfSuffix | include/andwass/string_view.hpp:260-265 | searching the suffix that starts `start` in gives the scan from `start`, shifted back by `start` |
| Text.MatchAt | include/andwass/string_view.hpp:241 | checking the first character before `starts_with` accepts exactly the occurrences |
| Text.OccursChar | include/andwass/string_view.hpp:214-221 | a one-character needle occurs exactly where that character stands |
| Text.OccursShift | include/andwass/string_view.hpp:265 | an occurrence in a suffix is an occurrence in the whole, at the index shifted by the suffix's start |
| Text.LastBelowSpec | include/andwass/string_view.hpp:304-311 | the right-to-left scan below `i` stops at the greatest occurrence below `i`, or gives `npos` when there is none |
| Text.LastOfSpec | include/andwass/string_view.hpp:289-312 | `rfind`'s answer is an occurrence and no greater index matches; it is `npos` exactly when the needle occurs nowhere |
| Text.LastOfUnique | include/andwass/string_view.hpp:294-312 | an occurrence with no later one (or `npos` with none at all) is the value of the backward search |
| Text.FirstOfChar | include/andwass/string_view.hpp:328-330 | a one-character search succeeds exactly when the character is in the view |
| Text.FirstBeforeLast | include/andwass/string_view.hpp:223-312 | with two occurrences, `find` is at or before the first and `rfind` at or after the second |
| Text.OccurrencesFromMembers | include/andwass/string_view.hpp:249-256 | the occurrence list holds exactly the occurrences at or after `i`, overlapping ones included |
| Text.OccurrencesFromSorted | include/andwass/string_view.hpp:249-256 | the occurrence list is strictly increasing and starts at `i` or later |
| Text.NoOccurrencesFrom | include/andwass/string_view.hpp:249-256 | with no occurrence at or after `i` the list is empty |
| Text.OccurrencesSkip | include/andwass/string_view.hpp:249-256 | an occurrence at `g` with none in `[i, g)` heads the list from `i` |
| Text.FirstFromHead | include/andwass/string_view.hpp:260 | the forward scan from `start` gives the head of the occurrence list from `start` |
| Text.OccurrencesIndex | include/andwass/string_view.hpp:259-270 | the `m`-th occurrence from `start` is the `m - 1`-th occurrence after the first one |
| Text.NthFromRound | include/andwass/string_view.hpp:260-269 | one round of `find_nth`, through the `find` of the suffix haystack (line 260): `npos` ends the search with `npos`, the last round answers `start + found`, and otherwise the search restarts at `min(start + found + 1, size)` (line 269) |
| Text.NthZeroIsFirst | include/andwass/string_view.hpp:255 | `find_nth(needle, 0) == find(needle)` |
| Text.NthFromIsOccurrence | include/andwass/string_view.hpp:249-273 | for a non-empty needle, the repeated search gives the `m`-th occurrence at or after `start`, overlaps counted, and `npos` when there are at most `m` |
| Text.NthFromEmptyNeedle | include/andwass/string_view.hpp:257-273 | with the empty needle, the `m`-th search from `start` lands on `min(start + m, size)`, never on `npos` |
| Text.NthIsOccurrence | include/andwass/string_view.hpp:249-273 | whatever `find_nth` returns other than `npos` is an occurrence in the original view |
| Text.LexFrom | include/andwass/string_view.hpp:338-362 | comparing from index `i` gives -1, 0 or 1, and 0 exactly when the two tails are equal |
| Text.Lex | include/andwass/string_view.hpp:337-363 | the comparison gives -1, 0 or 1, and 0 exactly when the contents are equal |
| Text.LexFromAntisymmetric | include/andwass/string_view.hpp:338-362 | swapping the operands negates the comparison of the tails from `i` |
| Text.LexAntisymmetric | include/andwass/string_view.hpp:337-363 | `compare(a, b) == -compare(b, a)` |
| Text.LexFirstDifference | include/andwass/string_view.hpp:340-347 | the first differing character decides the comparison |
| Text.LexProperPrefix | include/andwass/string_view.hpp:351-354 | a proper prefix compares less |
| Text.LexFromTransitive | include/andwass/string_view.hpp:338-362 | the order of the tails from `i` is transitive |
| Text.LexTransitive | include/andwass/string_view.hpp:337-363 | the comparison is a transitive order, and so, with antisymmetry, a strict total order |
| Andwass.Ptr.Plus | include/andwass/string_view.hpp:94 | pointer arithmetic keeps a pointer null or non-null |
| Andwass.Ptr.Minus | include/andwass/string_view.hpp:49 | the difference `last - first` of two pointers is 0 for two nulls and, when not negative, the step that leads from `first` to `last` (also `haystack.data() - data()` at line 265) |
| Andwass.View.Contents | include/andwass/string_view.hpp:9-10 | a view covers exactly `size` characters |
| Andwass.View.Accessors | include/andwass/string_view.hpp:55-95 | `is_empty` holds exactly for empty contents; `end() - begin()` is the size; `[begin(), end())` is the contents |
| Andwass.View.Front | include/andwass/string_view.hpp:107-109 | `front()` is the first character; an empty view is excluded, because the source leaves that undefined |
| Andwass.View.Back | include/andwass/string_view.hpp:117-119 | `back()` is the last character; an empty view is excluded, because the source leaves that undefined |
| Andwass.View.At | include/andwass/string_view.hpp:127-129 | `operator[]` is the indexed character; an out-of-range index is excluded, because the source leaves that undefined |
| Andwass.View.Substr | include/andwass/string_view.hpp:139-146 | `substr` never fails: it begins at `data + min(pos, size)` and has length `min(count, size - pos)`; at or past the end it is empty at `end()`; it stays inside the view |
| Andwass.View.SubstrContents | include/andwass/string_view.hpp:139-146 | `substr`'s characters are the slice of the view's characters from the clamped `pos` |
| Andwass.View.SplitContents | include/andwass/string_view.hpp:166-186 | `substr(0, k)` and `substr(k)` meet at one pointer, and their characters together are the view's |
| Andwass.View.SubstrStartingWith | include/andwass/string_view.hpp:153-155 | the result runs from the first occurrence to `end()`; without one it is empty at `end()` |
| Andwass.View.SubstrStartingWithStarts | include/andwass/string_view.hpp:148-155 | the result starts with the needle exactly when the view contains it |
| Andwass.View.StartsWith | include/andwass/string_view.hpp:193-195 | `starts_with(sv)` holds exactly when `sv` is a prefix of the contents |
| Andwass.View.EndsWith | include/andwass/string_view.hpp:202-207 | `ends_with(sv)` holds exactly when `sv` is a suffix; a longer `sv` gives false |
| Andwass.View.FindChar | include/andwass/string_view.hpp:214-221 | the first index holding `ch`, with no `ch` before it, or `npos` exactly when `ch` is absent; equal to the one-character forward search |
| Andwass.View.RFindChar | include/andwass/string_view.hpp:280-287 | the last index holding `ch`, with no `ch` after it, or `npos` exactly when `ch` is absent; equal to the one-character backward search |
| Andwass.CharSearch | include/andwass/string_view.hpp:214-221 | an index holding `ch` with no `ch` before it is the one-character forward search |
| Andwass.CharSearchBack | include/andwass/string_view.hpp:280-287 | an index holding `ch` with no `ch` after it is the one-character backward search |
| Andwass.View.Find | include/andwass/string_view.hpp:228-247 | `find` is the first occurrence (`FirstOfSpec`); an empty needle gives 0 and a longer needle `npos` |
| Andwass.View.RFind | include/andwass/string_view.hpp:294-312 | `rfind` is the last occurrence (`LastOfSpec`); an empty needle gives `size()` and a longer needle `npos` |
| Andwass.View.CandidateAt | include/andwass/string_view.hpp:240-241 | the test at candidate `i` (first character, then `string_view(begin_, end_).starts_with`) holds exactly at an occurrence |
| Andwass.View.SuffixAt | include/andwass/string_view.hpp:240-241 | `string_view(data_ + i, end())` covers the characters from `i` on |
| Andwass.View.NthRound | include/andwass/string_view.hpp:259-270 | what one round of `find_nth` learns from its `find` on the haystack that starts `start` characters in |
| Andwass.View.NthRoundFind | include/andwass/string_view.hpp:260-266 | the round's `find`, with what it implies for the final answer |
| Andwass.View.NthAdvance | include/andwass/string_view.hpp:269 | `remove_prefix(found + 1)` moves the haystack to the part of the view from `min(start + found + 1, size)` |
| Andwass.View.FindNth | include/andwass/string_view.hpp:257-273 | `find_nth` is the repeated overlap-counting search (`NthFromIsOccurrence`, `NthZeroIsFirst`), as an index into this view |
| Andwass.View.Contains | include/andwass/string_view.hpp:319-321 | `contains(needle)` holds exactly when the needle occurs somewhere |
| Andwass.View.ContainsChar | include/andwass/string_view.hpp:328-330 | `contains(ch)` holds exactly when `ch` is in the contents |
| Andwass.View.Compare | include/andwass/string_view.hpp:337-363 | `compare` is `Lex` of the contents: -1, 0 or 1, and 0 exactly for equal contents |
| Andwass.View.Equals | include/andwass/string_view.hpp:365-370 | `==` holds exactly for equal contents, and never for different sizes |
| Andwass.View.NotEquals | include/andwass/string_view.hpp:372-374 | `!=` holds exactly for different contents |
| Andwass.Default | include/andwass/string_view.hpp:26 | the default view has a null `data()` and size 0 |
| Andwass.FromPointer | include/andwass/string_view.hpp:33 | (pointer, length) is stored verbatim and covers the `n` cells from `p` |
| Andwass.Literal | include/andwass/string_view.hpp:377-379 | `operator""_sv` covers the literal's characters |
| Andwass.StrLen | include/andwass/string_view.hpp:44 | `strlen` counts the characters before the first NUL |
| Andwass.FromCString | include/andwass/string_view.hpp:42-46 | a null pointer gives the empty view; otherwise the view runs up to the terminator and holds no NUL |
| Andwass.FromRange | include/andwass/string_view.hpp:48-49 | the iterator pair gives `begin() == first`, `end() == last` and `size() == last - first` |
| Andwass.StringView.constructor | include/andwass/string_view.hpp:258 | a copy of a view has the same two fields |
| Andwass.StringView.RemovePrefix | include/andwass/string_view.hpp:166-170 | returns `substr(0, n)` and becomes `substr(n)`: the removed part starts at the old `begin()` and has `min(n, size)` characters; the new view starts where it ends and keeps the old `end()` |
| Andwass.StringView.RemoveSuffix | include/andwass/string_view.hpp:181-186 | the base stays, the size drops by `min(n, size)`, and the trailing `min(n, size)` characters are returned, ending at the old `end()` |
| StringViewTests.HelloWorldFinds | tests/string_view.cpp:107-109 | in "hello world", "" and "hello" are found at 0 and "world" at 6 |
| StringViewTests.HelloWorldMisses | tests/string_view.cpp:110-114 | "abc" and "helloworld" are not found |
| StringViewTests.HelloWorldRFindsChar | tests/string_view.cpp:137-139 | `rfind('d')` is 10 and `rfind('l')` is 9 |
| StringViewTests.HelloWorldRFindsEdgeChars | tests/string_view.cpp:138-140 | `rfind('h')` is 0 and `rfind('z')` is `npos` |
| StringViewTests.HelloWorldRFinds | tests/string_view.cpp:142-146 | `rfind` gives 6, 0, `npos`, 10 and `size()` for "world", "hello", "abc", "d" and "" |
| StringViewTests.SubstrScenarios | tests/string_view.cpp:79-86 | the `substr` results, and `substr(1000)` begins at `end()` |
| StringViewTests.StartsWithHolds | tests/string_view.cpp:90-92 | "hello world" starts with "hello world", "hello " and "" |
| StringViewTests.StartsWithFails | tests/string_view.cpp:98-101 | "hello world" starts neither with "world" nor with the longer "hello world " |
| StringViewTests.EndsWithHolds | tests/string_view.cpp:94-96 | "hello world" ends with "hello world", " world" and "" |
| StringViewTests.EndsWithFails | tests/string_view.cpp:99-102 | "hello world" ends neither with "hello" nor with the longer "hello world " |
| StringViewTests.ContainsScenarios | tests/string_view.cpp:112-114 | contains "hello" and "world" but not "helloworld" |
| StringViewTests.EqualityScenarios | tests/string_view.cpp:25-31 | "hello" equals itself (lines 26-27), the (pointer, length) view of the first 5 characters of "hello world" equals "hello" (line 28, also as `substr(0, 5)`), and `"hello" != "world"` (line 30) |
| StringViewTests.IndexScenarios | tests/string_view.cpp:33-36 | the characters at 0 and 2 of "hello", with `front` and `back` |
| StringViewTests.LettersFinds | tests/string_view.cpp:129-131 | in "ab cde f gh ij", "cde" is at 3 and "ab" at 0 |
| StringViewTests.LettersMisses | tests/string_view.cpp:132 | "klj" is not found |
| StringViewTests.SubstrStartingWithScenarios | tests/string_view.cpp:128-133 | the three `substr_starting_with` results |
| StringViewTests.AbFirstsLow | tests/string_view.cpp:118-120 | the forward scans of "ab ab ab ab ab" from 0, 1 and 4 |
| StringViewTests.AbFirstsHigh | tests/string_view.cpp:121-122 | the forward scans from 7, 10 and 13 |
| StringViewTests.AbNthsTail | tests/string_view.cpp:121-122 | the last rounds of `find_nth("ab", 4)` and `find_nth("ab", 5)` |
| StringViewTests.AbNths | tests/string_view.cpp:119-122 | `find_nth("ab", n)` is 0, 3, 12 and `npos` for n = 0, 1, 4, 5 |
| StringViewTests.AbcNth | tests/string_view.cpp:124 | `find_nth("abc", 0)` is `npos` |
| StringViewTests.OverlappingNthTail | tests/string_view.cpp:125 | the last three rounds on "aaaaaaaaaa" land on 5 |
| StringViewTests.OverlappingNth | tests/string_view.cpp:125 | `"aaaaaaaaaa".find_nth("a", 5)` is 5: overlapping matches count |
| StringViewTests.CompareScenarios | tests/string_view.cpp:149-156 | "abc" < "abcd", "abcd" > "abc", and equal views compare to 0 |

The methods `RemovePrefixScenarios`, `RemoveSuffixScenarios`, `FindScenarios`,
`RFindScenarios`, `RFindViewScenarios`, `FindNthScenarios`,
`FindNthOverlapping`, `CompareViewScenarios` and `ConstructionScenarios` call
the model's methods on the test literals and assert the expected results.

Where the code and its prose description differ, the model follows the code:

- `compare` returns exactly -1, 0 or 1, not just some negative or positive
  value.
- `find_nth` with an empty needle never returns `npos`. Every round matches
  at once and `remove_prefix(1)` stops at the end, so the result is
  `min(n, size())` even when `n > size()` (`Text.NthFromEmptyNeedle`).
  "Not found when there are fewer than `n + 1` occurrences" holds for
  non-empty needles (`Text.NthFromIsOccurrence`).

## Left out

- Pointer lifetime and aliasing of the external buffer: storage is one immutable `seq<char>`, and a pointer is an offset into it or null.
- `rbegin` and `rend` (`std::reverse_iterator` wrapping): `begin` and `end` are modelled as pointers.
- The iterator-pair constructor's genericity over `Iter`: only `const char*` pairs in the same storage are modelled (`FromRange`).
- `std::strlen` is a recursive function over the storage; a C string needs a NUL terminator inside the storage.
- `front`, `back` and `operator[]` on an empty view or out of range are undefined in the source; they appear only as preconditions.
- `size_t` wrap-around: sizes and indices are unbounded naturals below the `npos` sentinel, and `size - pos` is taken only where it cannot wrap.
- The signedness of `char` in `compare`: characters are ordered as Dafny orders `char`.
- `constexpr` and `[[nodiscard]]`: they have no runtime meaning in the model.
- Implicit conversion from `const char*` in the tests: the test literals are placed in the storage and viewed directly.
