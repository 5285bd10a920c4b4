# shrubbery core, modelled in Dafny

This project models the pure and bookkeeping logic of the Django helper library
*shrubbery* and proves properties of the model. The library itself is Python.

- `ManyRelatedJoinQ` (`many_related_join.dfy`) is a "has tag t" predicate in
  conjunctive normal form: a set of clauses, each a set of `(term, negated)`
  literals, plus a tri-state `trivial` flag. The model covers:
  - the combinators `&`, `|` and `~`;
  - the three-pass canonicaliser `optimize`, built from `_optimize` and
    `_negate`/`cross_product`;
  - the comparisons;
  - the query plan of `add_to_query`.
  Further files cover the sorted `__repr__` (`many_related_join_repr.dfy`),
  the prefix notation with its parser (`many_related_join_prefix.dfy`), and
  the six `repr` doctests of the test module, each computed from its
  expression (`many_related_join_doctests.dfy`).
- `db/utils.py` (`db_utils.dfy`) covers:
  - `clean_slice`;
  - the flattening `CompoundQ` combiner;
  - the join bookkeeping `forge_join`/`remove_join` over a query's maps;
  - the subclass walk `_collect_sub_models` and the `get_sub_models` cache;
  - `unordered_pairs`.
- `db/union.py` (`union.dfy`) covers:
  - the chained generator (slices with a running offset);
  - the k-way sorted merge;
  - the `UnionQuerySet` bookkeeping: one queryset per model, merged in place,
    with clones returned by `sort`, slicing and `|`.
- The reverse fields: a list stored as `(index, value)` rows (`ListTable`)
  and a dict stored as `(owner, key) -> value` rows (`DictTable`).
- Smaller modules:
  - the tag encoder and the quote/escape state machine of `parse_tags`;
  - the page windows of `PageRanges` and their `repr`;
  - the `UrlMap` registry with lookup along a class MRO;
  - `in_chunks_of` and `force_iter`;
  - `base_encode`;
  - `camel_case`.

Shared modules:
- `Wrappers` holds `Option`/`Result`.
- `PythonStr` holds Python 2's `unicode.strip`, `str.join` and `str.replace`.
- `PythonOrder` holds Python's ordering of strings and tuples, which
  `sorted` uses in `__repr__`.

Parameters stand in for what the library gets from Django or the caller:
- rows of a queryset are sequences;
- a model's class tree is a datatype;
- the MRO of an object is a given sequence;
- `get_absolute_url`, `django_reverse` and a mapper's result are values or
  functions passed in;
- the label of a term (`unicode(obj)`) and the key lookup of
  `from_prefix_notation` are functions passed in.

## Model

Every path below is relative to the repository root.

| member | source | states |
|---|---|---|
| BaseEncoding.BaseEncode | shrubbery/utils/encoding.py:2-9 | The loop result is the digit string `Encoded(x, chars)`: least-significant digit first, `""` for 0. An empty alphabet fails for a positive `x`, because `divmod` by zero raises. |
| BaseEncoding.Encoded | shrubbery/utils/encoding.py:5-8 | The digit string, least-significant digit first, is empty exactly for 0. |
| BaseEncoding.EncodedUsesChars | shrubbery/utils/encoding.py:2-9 | Every output character is a character of `chars`. |
| BaseEncoding.DecodeEncoded | shrubbery/utils/encoding.py:5-8 | With distinct characters, the sum of `index(out[i]) * b^i` over the output gives back `x`. |
| BaseEncoding.EncodedLength | shrubbery/utils/encoding.py:6-8 | For `x > 0` the length is the number of base-b digits: `b^(len-1) <= x < b^len`, with a non-zero last digit. |
| BaseEncoding.LastIsNotZero | shrubbery/utils/encoding.py:6-8 | For `x > 0` the last character is never `chars[0]`. |
| BaseEncoding.Base36Encode | shrubbery/utils/encoding.py:11-12 | Base 36 is `base_encode` over `0-9A-Z`; it uses only those digits and decodes back to `x`. |
| BaseEncoding.Base36DigitsDistinct | shrubbery/utils/encoding.py:12 | The base-36 alphabet has 36 distinct characters. |
| BaseEncoding.EncodedExamples | shrubbery/utils/encoding.py:2-12 | 10 in decimal is `"01"` and 71 in base 36 is `"Z1"`, least-significant digit first. |
| BaseEncoding.LoopNeverEnds | shrubbery/utils/encoding.py:5-7 | As written, for a negative `x` or a one-character alphabet the loop variable is never 0 after any number of turns: floor division keeps a negative `n` negative, and `divmod(n, 1)` keeps `n`. |
| BaseEncoding.BaseEncodeCorrected | shrubbery/utils/encoding.py:2-9 | Succeeds exactly for 0 and for a positive `x` with at least two characters. A positive `x` with no characters is a `ZeroDivisionError`, and the inputs the loop cannot finish on are a `ValueError`. A result is `Encoded(x, chars)` and decodes back to `x` when the characters are distinct. |
| Text.Substitute | shrubbery/utils/text.py:4-6 | The substitution never lengthens the string and is empty exactly for empty input. |
| Text.SubstituteLeavesNoMatch | shrubbery/utils/text.py:4-6 | After the substitution, no `_` is followed by a lowercase ASCII letter. |
| Text.SubstituteFixesNoMatch | shrubbery/utils/text.py:4-6 | A string without such a match is left unchanged. |
| Text.CamelCase | shrubbery/utils/text.py:5-12 | `None` keeps the first character. `True`/`False` upper- or lower-cases it and keeps the rest. An empty input with a flag raises `IndexError`. |
| Text.CamelCaseIdempotent | shrubbery/utils/text.py:6 | `camel_case` with `initial_cap=None` is idempotent. |
| Text.CamelCaseFooBar | shrubbery/utils/text.py:5-12 | `camel_case("foo_bar", True)` is `"FooBar"`. |
| Text.CamelCaseUnderscores | shrubbery/utils/text.py:4-11 | `"__x"` becomes `"_X"`, `"a_B"` is kept (uppercase is not matched), and `("", False)` raises `IndexError`. |
| Utils.ForceIter | shrubbery/utils/__init__.py:50-56 | A string or a non-iterable becomes a one-item sequence; an iterable yields its items. |
| Utils.ForceIterIdempotent | shrubbery/utils/__init__.py:50-56 | Forcing the result again changes nothing. |
| Utils.InChunksOf | shrubbery/utils/__init__.py:58-72 | `n == 0` fails (a division by zero when transposing, a zero `xrange` step otherwise), a negative `n` yields nothing, and the two modes are the chunk and stride lists. |
| Utils.ChunksConcat | shrubbery/utils/__init__.py:67-72 | The chunks concatenate back to the input. |
| Utils.ChunkSizes | shrubbery/utils/__init__.py:67-72 | Every chunk has at most `n` items, and all but the last have exactly `n`. |
| Utils.ChunkCount | shrubbery/utils/__init__.py:71 | There are `ceil(len / n)` chunks. |
| Utils.TransposedPartition | shrubbery/utils/__init__.py:60-66 | Transposed, there are `floor(len / n)` groups. Group `j` is `xs[j], xs[j + num], ...`, and every item lies in exactly one group, at index `i / num` of group `i % num`. |
| Utils.TransposedShort | shrubbery/utils/__init__.py:61-65 | Transposed with fewer than `n` items, empty data included, there are no groups. |
| Utils.InChunksOfExample | shrubbery/utils/__init__.py:58-72 | `[1..5]` in chunks of 2 gives `[[1,2],[3,4],[5]]`, and transposed gives `[[1,3,5],[2,4]]`. |
| Pagination.Ranges | shrubbery/utils/pagination.py:39-66 | `list(PageRanges(...))` holds between one and seven ranges: at most three before the page, the current range `[p, p+1)`, and at most three after it. |
| Pagination.Length | shrubbery/utils/pagination.py:9-10 | `len(PageRange)` is the number of pages in the range. |
| Pagination.OneCurrent | shrubbery/utils/pagination.py:55 | Exactly one range is current, and it is `[p, p+1)`. |
| Pagination.RangesTile | shrubbery/utils/pagination.py:44-66 | For `1 <= p <= n` and non-negative settings, each range starts where the previous one stops, from 1 up to `n + 1`. |
| Pagination.RangesCoverPages | shrubbery/utils/pagination.py:44-66 | The pages of all ranges, in order, are exactly `1..n`. |
| Pagination.Ellipses | shrubbery/utils/pagination.py:46-66 | Every ellipsis hides at least `min_gap` pages, and there is at most one ellipsis on each side of the current page. |
| Pagination.EndPages | shrubbery/utils/pagination.py:44-57 | On page 1 the first range is the current page, and on page `n` the last range is. |
| Pagination.Windows | shrubbery/utils/pagination.py:45-66 | When a side has an ellipsis, the window next to the current page spans `max(before, last - n + p - 1)` pages (or `max(after, first - p)` after it), and the outer run is `[1, first + 1)` (or `[n - last + 1, n + 1)`). |
| Pagination.DoctestPageOne | shrubbery/utils/tests.py:5-6 | The ranges of page 1 of 30 with `before=2, after=3`. |
| Pagination.DoctestPageTwentyOne | shrubbery/utils/tests.py:7-12 | The ranges of page 21 for `min_gap` 1, 3 and 4. |
| Pagination.DoctestLastPage | shrubbery/utils/tests.py:13-14 | The ranges of page 30 with `last=2`. |
| Pagination.DoctestPageEight | shrubbery/utils/tests.py:15-20 | The ranges of page 8 for `min_gap` 1, 2 and 3. |
| Pagination.DoctestWideFirstAndLast | shrubbery/utils/tests.py:21-24 | The ranges with `first=10` and with `last=10, first=10`. |
| Pagination.DoctestWideWindows | shrubbery/utils/tests.py:25-28 | Page 15 with `before/after=20` and with `first/last=20` has no ellipsis. |
| PaginationRepr.NatStrDigits | shrubbery/utils/pagination.py:27 | `str(num)` is all decimal digits, has no leading zero, and its value is `num`. |
| PaginationRepr.NumberStrings | shrubbery/utils/pagination.py:27 | One string per page of the range, each `str(num)`. |
| PaginationRepr.RangeRepr | shrubbery/utils/pagination.py:20-27 | `repr(PageRange)` fails (`IndexError` from `self.range[0]`) exactly for an empty current range that is not an ellipsis. |
| PaginationRepr.RangeUnicode | shrubbery/utils/pagination.py:15-18 | As written, `__unicode__` gives an ellipsis range as the literal `u"â€¦"`. In a file declared UTF-8 that is three characters, U+00E2 U+20AC U+00A6. Any other range gives its `repr`. |
| PaginationRepr.RangeUnicodeCorrected | shrubbery/utils/pagination.py:15-23 | An ellipsis range gives the single horizontal ellipsis U+2026, the three dots the comment at line 22 sets against `..`. Any other range is as written. |
| PaginationRepr.EllipsisMisEncoded | shrubbery/utils/pagination.py:17 | The literal is the UTF-8 encoding of U+2026 (`E2 80 A6`) read back as Windows-1252. It holds no U+2026, so the as-written and corrected results differ for every ellipsis range. |
| PaginationRepr.Reprs | shrubbery/utils/pagination.py:37 | `map(repr, self)` succeeds exactly when every range's `repr` does, element by element. |
| PaginationRepr.PageRangesRepr | shrubbery/utils/pagination.py:36-37 | `repr(PageRanges)` succeeds exactly when every range's `repr` does. The text is then framed by `<PageRanges: [` and `]>`. |
| PaginationRepr.ReprNeverFails | shrubbery/utils/pagination.py:36-55 | `repr(PageRanges)` never raises: the one current range is never empty. |
| PaginationRepr.ReprLastPage | shrubbery/utils/tests.py:13-14 | The exact text `<PageRanges: [1, 2, 3; ..; 28, 29; <30>]>`. |
| PaginationRepr.ReprFirstPage | shrubbery/utils/tests.py:5-6 | The exact text `<PageRanges: [<1>; 2, 3, 4; ..; 28, 29, 30]>`. |
| TagEncoding.QuoteTag | shrubbery/tagging/encoding.py:5-8 | A name is unchanged unless forced or it contains `,` or `"`. A quoted name is wrapped in `"`, with each `\` doubled and each `"` escaped. |
| TagEncoding.EscapedIsEscapeEach | shrubbery/tagging/encoding.py:7 | The two chained `replace` calls equal escaping character by character. |
| TagEncoding.EncodeTags | shrubbery/tagging/encoding.py:10-11 | `encode_tags` is empty for no tags and is the one quoted tag for one. Otherwise it is the first tag quoted without force, then `, `, then the encoding of the rest. `TagEncoding.RoundTrip` parses it back. |
| TagEncoding.QuotedAll | shrubbery/tagging/encoding.py:10-11 | `encode_tags` quotes each tag, in order, with `force` off. |
| TagEncoding.ParseTags | shrubbery/tagging/encoding.py:13-52 | The character loop computes the state machine `Run` over the input from the start state. |
| TagEncoding.RunClean | shrubbery/tagging/encoding.py:17-52 | The machine emits only non-empty, stripped tags. |
| TagEncoding.ParseTagsClean | shrubbery/tagging/encoding.py:13-52 | `parse_tags` never yields an empty or unstripped tag. |
| TagEncoding.StepQuote | shrubbery/tagging/encoding.py:22-30 | A quote closes a quoted tag (emitting it) or opens one. |
| TagEncoding.StepSeparator | shrubbery/tagging/encoding.py:31-38 | Inside quotes `,` is literal; outside, it ends the current tag. |
| TagEncoding.StepChar | shrubbery/tagging/encoding.py:45-46 | Any other character is appended. |
| TagEncoding.StepEscape | shrubbery/tagging/encoding.py:39-44 | Inside quotes, `\\` and `\"` append the escaped character. |
| TagEncoding.BackslashOutsideQuotes | shrubbery/tagging/encoding.py:39-44 | Outside quotes, a backslash is kept literally. |
| TagEncoding.IllegalEscape | shrubbery/tagging/encoding.py:40-43 | Inside quotes, a backslash before anything but `\` or `"` raises `ValueError("illegal escape sequence")`. |
| TagEncoding.Unterminated | shrubbery/tagging/encoding.py:47-49 | An open quote at the end of the input raises `ValueError("quotes mismatch")`. |
| TagEncoding.ParseUnterminated | shrubbery/tagging/encoding.py:47-49 | `"a` raises `quotes mismatch`. |
| TagEncoding.ParseEndsInEscape | shrubbery/tagging/encoding.py:39-49 | `"a\` also raises `quotes mismatch`: the escape reads past the end. |
| TagEncoding.ParseIllegalEscape | shrubbery/tagging/encoding.py:40-43 | `"a\b"` raises `illegal escape sequence`. |
| TagEncoding.ParseAfterSpaces | shrubbery/tagging/encoding.py:45-52 | Whitespace of any kind before an unquoted tag, the no-break space included, is dropped by `unicode.strip`: the input yields just the tag. |
| TagEncoding.ParseBlank | shrubbery/tagging/encoding.py:47-52 | Input made only of whitespace, such as a space, a no-break space and a space, yields no tag. |
| PythonStr.StripNoBreakSpace | shrubbery/tagging/encoding.py:18 | `unicode.strip` removes a leading no-break space U+00A0. |
| TagEncoding.RoundTrip | shrubbery/tagging/encoding.py:10-52 | `parse_tags(encode_tags(ts)) == ts` whenever every tag is non-empty and stripped. |
| UrlMap.ApplyDefaults | shrubbery/urlmap/__init__.py:93-94 | The `setdefault` loop computes `SetDefaults`. |
| UrlMap.SetDefaultsMeaning | shrubbery/urlmap/__init__.py:93-94 | A kwarg already present keeps its value. A missing one takes the first default given for it. |
| UrlMap.MergePrecedence | shrubbery/urlmap/__init__.py:88-96 | Explicit kwargs win over mapper output, and mapper output wins over defaults. |
| UrlMap.ClassViewFirst | shrubbery/urlmap/__init__.py:55-60 | The MRO walk finds the entry of the first registered class, and raises `KeyError` exactly when no class is registered. |
| UrlMap.MapperForFirst | shrubbery/urlmap/__init__.py:62-71 | For each class, the mapper for `uc` is tried before the one for `None`. The first class having either wins, and the result is `None` when no class has one. |
| UrlMap.UrlMap.constructor | shrubbery/urlmap/__init__.py:19-22 | The three maps start empty. |
| UrlMap.UrlMap.Register | shrubbery/urlmap/__init__.py:24-33 | Stores `(view, defaults or {}, mapper)` under `(subject, uc)` for each use case. As in the source, `instances=True` writes the class `registry` and `instances=False` writes `instance_registry`. The default mappers are unchanged. |
| UrlMap.UrlMap.Include | shrubbery/urlmap/__init__.py:40-48 | Merges all three maps, with the included entries overriding. No map raises `ValueError`. |
| UrlMap.UrlMap.GetView | shrubbery/urlmap/__init__.py:50-60 | Looks up the instance entry first, then the first MRO class. |
| UrlMap.UrlMap.GetDefaultMapper | shrubbery/urlmap/__init__.py:62-71 | The loop returns `MapperFor` along the MRO. |
| UrlMap.UrlMap.SetDefaultMapper | shrubbery/urlmap/__init__.py:73-75 | Writes the mapper for every listed use case and changes nothing else. |
| UrlMap.UrlMap.Reverse | shrubbery/urlmap/__init__.py:77-97 | A missing view falls back to `get_absolute_url` only for a falsy use case, else raises `NoUrlMapping`. Otherwise the URL gets the view's mapper (or the default mapper) and the merged kwargs. |
| UrlMap.RegisteredViewFound | shrubbery/urlmap/__init__.py:24-60 | After registering the object's first MRO class, `get_view` finds that entry unless an instance entry exists. |
| UrlMap.InstanceViewFirst | shrubbery/urlmap/__init__.py:28-54 | An instance entry wins over every class entry. |
| UrlMap.DefaultMapperFound | shrubbery/urlmap/__init__.py:62-75 | A mapper set for the first MRO class is found for that use case. |
| UrlMap.StringUseCaseIsOne | shrubbery/urlmap/__init__.py:32-33 | A string use case registers exactly one key. (See also shrubbery/utils/__init__.py:50-52.) |
| DbUtils.CleanSlice | shrubbery/db/utils.py:257-283 | Fails with `ValueError` exactly for a truthy step outside `allow_step`. `None` steps are replaced only with `replace_none`. `count_func` is called at most once, and only when a bound needs it. |
| DbUtils.CleanSliceSelects | shrubbery/db/utils.py:257-283 | With `replace_none`, the cleaned bounds select what Python slicing selects. |
| DbUtils.InvertAll | shrubbery/db/utils.py:45-46 | `~CompoundQ` negates every member and keeps their number. |
| DbUtils.InvertMeaning | shrubbery/db/utils.py:45-46 | `~` negates the truth value of a combined Q. |
| DbUtils.InvertAllMeaning | shrubbery/db/utils.py:45-46 | Negating every member and flipping the connector negates the whole. |
| DbUtils.Combine | shrubbery/db/utils.py:48-68 | The result always has the requested connector. |
| DbUtils.CombineShape | shrubbery/db/utils.py:48-68 | A different connector nests as `[self, other]`, and a same-connector `CompoundQ` concatenates. A Q is folded into the first Q member, and anything else is appended. |
| DbUtils.CombineMeaning | shrubbery/db/utils.py:48-68 | The combination means `self AND/OR other`. |
| DbUtils.JoinQuery.constructor | shrubbery/db/utils.py:192-217 | An empty query is consistent. |
| DbUtils.JoinQuery.ForgeJoin | shrubbery/db/utils.py:206-217 | Sets `alias_map[alias]` (join type `INNER` when none is given), appends `alias` to `join_map[t]` and sets `rev_join_map[alias] = t`. Nothing else changes, and a consistent query stays consistent when the alias is fresh. |
| DbUtils.JoinQuery.RemoveJoin | shrubbery/db/utils.py:192-203 | States the whole new state on every path. An alias missing from `rev_join_map`, or whose join is missing from `join_map`, raises `KeyError`, and one missing from its join list raises `ValueError` (`list.remove`); nothing has changed then. Past those checks, one occurrence leaves the join list and the `rev_join_map` and `alias_map` entries go. A missing `alias_map` entry then raises `KeyError` with `tables` and `alias_refcount` unchanged. With `traceless` the alias leaves `tables` (`ValueError` if absent, with `alias_refcount` unchanged), then `alias_refcount` (`KeyError` if absent). Success is exactly the case where every lookup succeeds, and it keeps a consistent query consistent. |
| DbUtils.ForgeKeepsConsistent | shrubbery/db/utils.py:206-217 | Forging a fresh alias keeps `join_map` and `rev_join_map` mutually consistent. |
| DbUtils.RemoveKeepsConsistent | shrubbery/db/utils.py:192-200 | Removing a join keeps the two maps consistent. |
| DbUtils.CollectSubModels | shrubbery/db/utils.py:166-173 | The recursive walk adds exactly `Collected(t, filter, direct)` to the given set. |
| DbUtils.CollectedSound | shrubbery/db/utils.py:166-173 | Every collected class passes the filter and is reached by a chain of `__subclasses__()` from the model. With `direct`, no class before it on that chain passes. |
| DbUtils.CollectedComplete | shrubbery/db/utils.py:166-173 | Conversely, every class that a chain of `__subclasses__()` reaches from the model and that passes the filter is collected. With `direct`, this holds when no class before it on the chain passes. With `CollectedSound` this makes `Collected` exactly the set the walk is meant to find. |
| DbUtils.SubModelsCache.constructor | shrubbery/db/utils.py:176 | The cache starts empty. |
| DbUtils.SubModelsCache.GetSubModels | shrubbery/db/utils.py:179-183 | A cached key returns the cached set. Otherwise the walk's result is stored and returned under a key without `virtual`. |
| DbUtils.VirtualIgnoredByCache | shrubbery/db/utils.py:180 | For a model whose one subclass is virtual, the calls with `virtual` off and on share a cache key, yet collect `{}` and `{sub}` respectively. |
| DbUtils.FullKeySubModelsCache.GetSubModels | shrubbery/db/utils.py:179-183 | With `virtual` in the key, every call returns the walk's result. |
| DbUtils.PairsWith | shrubbery/db/utils.py:241-243 | The pairs `(a, b)` with `b.pk > a.pk`. |
| DbUtils.UnorderedPairs | shrubbery/db/utils.py:238-243 | The pairs are exactly those `(a, b)` with `a.pk < b.pk`. |
| DbUtils.UnorderedPairsOnce | shrubbery/db/utils.py:238-243 | For distinct objects, each pair is yielded once. |
| ReverseDict.Dict | shrubbery/db/fields/reverse/reverse_dict.py:63-67 | An owner's dict holds exactly its rows. |
| ReverseDict.DictUpdate | shrubbery/db/fields/reverse/reverse_dict.py:76-80 | Writing a row changes only that owner's dict, at that key. |
| ReverseDict.DictRemove | shrubbery/db/fields/reverse/reverse_dict.py:69-74 | Deleting a row removes only that key of that owner. |
| ReverseDict.DictWithout | shrubbery/db/fields/reverse/reverse_dict.py:82-84 | Clearing an owner empties its dict and leaves the others. |
| ReverseDict.DictsDetermineRows | shrubbery/db/fields/reverse/reverse_dict.py:63-84 | The per-owner dicts determine the whole table. |
| ReverseDict.ToDictMeaning | shrubbery/db/fields/reverse/reverse_dict.py:142-143 | `dict(pairs)` with distinct keys maps each key to its pair's value. |
| ReverseDict.ItemsRebuildDict | shrubbery/db/fields/reverse/reverse_dict.py:86-91 | `dict(d.items())` is `d`: `copy` gives back the contents. |
| ReverseDict.DictTable.GetItem | shrubbery/db/fields/reverse/reverse_dict.py:63-67 | `d[k]` returns the value, and a missing key raises `KeyError`. |
| ReverseDict.DictTable.Get | shrubbery/db/fields/reverse/reverse_dict.py:28-39 | `get(k[, default])` returns the value, else the default or `None`. |
| ReverseDict.DictTable.SetItem | shrubbery/db/fields/reverse/reverse_dict.py:76-80 | Updates or creates the row, so `d[k] == v` afterwards. |
| ReverseDict.DictTable.DelItem | shrubbery/db/fields/reverse/reverse_dict.py:69-74 | Removes only that row; a missing key raises `KeyError`. |
| ReverseDict.DictTable.Clear | shrubbery/db/fields/reverse/reverse_dict.py:82-84 | Removes exactly the owner's rows. |
| ReverseDict.DictTable.SetDefault | shrubbery/db/fields/reverse/reverse_dict.py:110-116 | An existing value is returned unchanged. A missing one is inserted as the default, which is returned. |
| ReverseDict.DictTable.Pop | shrubbery/db/fields/reverse/reverse_dict.py:118-130 | Returns and removes the value. A missing key returns the single default, raises `TypeError` with two extras or more, and raises `KeyError` with none. |
| ReverseDict.DictTable.PopItem | shrubbery/db/fields/reverse/reverse_dict.py:132-140 | Removes one row of the owner and returns its `(key, value)`. An owner without rows raises `IndexError` (from `self.all()[0]`), and nothing changes. |
| ReverseDict.DictTable.Copy | shrubbery/db/fields/reverse/reverse_dict.py:142-143 | `copy()` is exactly the owner's dictionary. |
| ReverseDict.DictTable.Listing | shrubbery/db/fields/reverse/reverse_dict.py:86-105 | The row walk of `iteritems`/`iterkeys` lists each key of the owner exactly once. |
| ReverseDict.DictTable.Items | shrubbery/db/fields/reverse/reverse_dict.py:86-91 | `items()` pairs each listed key with its value. |
| ReverseDict.DictTable.Keys | shrubbery/db/fields/reverse/reverse_dict.py:93-105 | `keys()` lists each key once. |
| ReverseDict.DictTable.Values | shrubbery/db/fields/reverse/reverse_dict.py:97-108 | `values()` follows the key listing. |
| ReverseDict.DictTable.Assign | shrubbery/db/fields/reverse/reverse_dict.py:153-157 | Descriptor assignment replaces one owner's contents with the given dict and leaves other owners' rows untouched. |
| ReverseList.ShiftedMeaning | shrubbery/db/fields/reverse/reverse_list.py:23-26 | `_shift_gte` moves exactly the rows at or above `index` by `delta`. |
| ReverseList.ListTable.ShiftGte | shrubbery/db/fields/reverse/reverse_list.py:23-26 | The method performs that shift; a zero delta changes nothing. |
| ReverseList.ListTable.CreateItem | shrubbery/db/fields/reverse/reverse_list.py:46-50 | Stores one row. |
| ReverseList.ListTable.UpdateItem | shrubbery/db/fields/reverse/reverse_list.py:52-53 | Updates the row if it exists and reports whether it did. |
| ReverseList.ListTable.Count | shrubbery/db/fields/reverse/reverse_list.py:91-92 | `len` is the list length. |
| ReverseList.ListTable.CountOf | shrubbery/db/fields/reverse/reverse_list.py:66-69 | `count(v)` is the number of occurrences of `v`. |
| ReverseList.ListTable.Contains | shrubbery/db/fields/reverse/reverse_list.py:94-95 | `v in l` exactly when some row holds `v`. |
| ReverseList.ListTable.GetItem | shrubbery/db/fields/reverse/reverse_list.py:101-107 | Works for `0 <= i < len`. Any other index, negative ones included, raises `IndexError`. |
| ReverseList.ListTable.SetItem | shrubbery/db/fields/reverse/reverse_list.py:136-139 | Changes only element `i` for `0 <= i < len`. Otherwise raises `IndexError` and changes nothing. |
| ReverseList.ListTable.Append | shrubbery/db/fields/reverse/reverse_list.py:160-162 | The list becomes `old + [v]`, with indices kept `0..len-1`. |
| ReverseList.ListTable.Extend | shrubbery/db/fields/reverse/reverse_list.py:164-168 | The list becomes `old + vs`. |
| ReverseList.ListTable.Pop | shrubbery/db/fields/reverse/reverse_list.py:170-185 | Defaults to the last index and normalises negative ones. Returns the value and closes the gap. An out-of-range index raises `IndexError`. |
| ReverseList.ListTable.DelItem | shrubbery/db/fields/reverse/reverse_list.py:150-154 | `del l[i]` is `pop(i)`, with the same index rules. |
| ReverseList.ListTable.Index | shrubbery/db/fields/reverse/reverse_list.py:194-200 | Returns the lowest index holding `v`, and raises `ValueError` if there is none. |
| ReverseList.ListTable.Remove | shrubbery/db/fields/reverse/reverse_list.py:77-84 | Deletes the lowest-index occurrence and shifts later rows down. Raises `ValueError` if `v` is absent. |
| ReverseList.ListTable.GetSlice | shrubbery/db/fields/reverse/reverse_list.py:28-41 | A slice read is Python's slice of the list. Step -1 gives it reversed, and a zero or absent step counts as 1. Any other truthy step raises `ValueError`. |
| ReverseList.ListTable.DelSlice | shrubbery/db/fields/reverse/reverse_list.py:143-149 | Slice deletion is Python's `del xs[a:b]`, and the later indices close up. A truthy step other than 1 raises `ValueError` and changes nothing. |
| ReverseList.ListTable.SetSlice | shrubbery/db/fields/reverse/reverse_list.py:111-135 | Slice assignment as written: the result is `AssignedAsWritten` of the cleaned bounds. A step other than 1, or a zero step, raises `ValueError`. |
| ReverseList.ListTable.AssignRange | shrubbery/db/fields/reverse/reverse_list.py:113-135 | The update/create loop and the surplus handling, as written. |
| ReverseList.AssignedAsWrittenAgrees | shrubbery/db/fields/reverse/reverse_list.py:111-135 | When there are at least as many values as indices, the as-written assignment is Python's. |
| ReverseList.SurplusIndexKept | shrubbery/db/fields/reverse/reverse_list.py:115-128 | `l[0:2] = [99]` on `[10,11,12,13]` keeps `11`, where Python gives `[99,12,13]`. |
| ReverseList.ReversedBoundsInsertAtStop | shrubbery/db/fields/reverse/reverse_list.py:129-135 | `l[3:1] = [99]` inserts at index 1, where Python inserts at 3. |
| ReverseList.ListTable.SetSliceCorrected | shrubbery/db/fields/reverse/reverse_list.py:109-135 | The corrected slice assignment is Python's `l[start:stop] = values`. |
| ReverseList.ListTable.ReplaceRange | shrubbery/db/fields/reverse/reverse_list.py:117-135 | Replaces `old[lo:hi]` by the values. |
| ReverseList.ListTable.Insert | shrubbery/db/fields/reverse/reverse_list.py:156-158 | `insert(i, v)` runs the as-written slice assignment `l[i:i] = [v]`. That places `v` at Python's position for `i` and shifts the later rows up. |
| ReverseList.ListTable.Sort | shrubbery/db/fields/reverse/reverse_list.py:187-192 | Rewrites the values in key order over the same indices. |
| ReverseList.SortByKey | shrubbery/db/fields/reverse/reverse_list.py:189-190 | The sorted values are a permutation of the old ones, in key order. |
| ReverseList.ListTable.Assign | shrubbery/db/fields/reverse/reverse_list.py:214-218 | Descriptor assignment makes the list exactly the given values. |
| ReverseList.Reverse | shrubbery/db/fields/reverse/reverse_list.py:39-40 | A step -1 read yields the elements in reverse order. |
| ReverseList.IndexOf | shrubbery/db/fields/reverse/reverse_list.py:194-200 | The first index holding `v`. |
| ReverseList.BoundsArePython | shrubbery/db/fields/reverse/reverse_list.py:28-37 | The index filters built from a cleaned slice select Python's bounds. |
| ReverseList.PythonByBounds | shrubbery/db/fields/reverse/reverse_list.py:28-37 | Python's slice read and slice assignment, in terms of those bounds. |
| ReverseList.StepOneOnly | shrubbery/db/fields/reverse/reverse_list.py:112-144 | With `allow_step=(1,)`, only a truthy step other than 1 fails. |
| ReverseList.DeleteByBounds | shrubbery/db/fields/reverse/reverse_list.py:143-149 | The deleted rows and the shift give Python's `del l[a:b]`. |
| Union.ChainedUnion | shrubbery/db/union.py:35-51 | The generator's loop yields `ChainedAsWritten`, the chain with its running offset. |
| Union.ChainIsAsWritten | shrubbery/db/union.py:35-51 | The per-part step function and the whole-chain reading agree. |
| Union.NoLimitsIsConcatenation | shrubbery/db/union.py:35-51 | With no limits, the output is the concatenation of the parts. |
| Union.StopIsPrefix | shrubbery/db/union.py:40-49 | With only a positive stop, the output is the first `stop` elements. |
| Union.ZeroStartIsNoStart | shrubbery/db/union.py:39-40 | A start of 0 is treated as absent. |
| Union.ThreeSingleParts | shrubbery/db/tests/union.py:49-52 | `[1:]`, `[:2]` and `[1:2]` over three one-element parts. |
| Union.AsWrittenAgrees | shrubbery/db/union.py:35-51 | With the start inside the first part and a non-zero stop, the as-written chain equals the intended window: for non-negative bounds this is the slice `[start:stop]` of the concatenation. A negative bound reads as 0, since Django querysets refuse negative slicing. |
| Union.OffsetOvershoot | shrubbery/db/union.py:49-51 | `start=2` over `[[a],[b],[c]]` yields `[b, c]`, where the slice is `[c]`. |
| Union.ZeroStopYieldsAll | shrubbery/db/union.py:41-45 | `stop=0` yields everything, where `[:0]` is empty. |
| Union.ChainedUnionCorrected | shrubbery/db/union.py:35-51 | For non-negative bounds, the corrected generator yields exactly the slice `Flatten(parts)[start:stop]`. A negative bound reads as 0, not as a count from the end. |
| Union.NegativeBoundsAtEdges | shrubbery/db/union.py:39-43 | In both generators a negative start is the same as no start, and a negative stop yields nothing, because `max(start - offset, 0)` is 0 and `qs_stop <= 0` breaks. |
| Union.WindowAppend | shrubbery/db/union.py:46-49 | Slicing a concatenation is slicing each part with shifted bounds. |
| Union.Insort | shrubbery/db/union.py:21 | `bisect.insort` adds one head; every head of the result is an old one or the new one, and the new one is among them. |
| Union.InsortMultiset | shrubbery/db/union.py:21 | the heads after `bisect.insort` are, as a multiset, exactly the old heads plus the new one. |
| Union.InsortSorted | shrubbery/db/union.py:21 | inserting into heads sorted by key keeps them sorted by key. |
| Union.FirstHeads | shrubbery/db/union.py:24-25 | One head per non-empty input, sorted, with every element pending. |
| Union.SortedUnion | shrubbery/db/union.py:16-33 | The merge yields every element of every input exactly once (a permutation of the concatenation). When every input is ordered by key in that direction, the output is ordered. |
| Union.Or | shrubbery/db/union.py:72 | The query of `qs` or-ed with `model_qs` keeps the model and holds exactly the rows of either operand, each row of both included. |
| Union.Added | shrubbery/db/union.py:63-76 | `_add_qs` keeps one queryset per model: a repeat model is merged in place at its position, and a new model is appended. |
| Union.AddedModels | shrubbery/db/union.py:63-76 | The model set grows by the added model, and the positions before are kept. |
| Union.AddedRows | shrubbery/db/union.py:63-76 | The rows afterwards are the old rows plus the added queryset's. |
| Union.AddedAllRow | shrubbery/db/union.py:63-76 | Adding querysets one after another with `_add_qs` adds exactly their rows. |
| Union.AddedAllModels | shrubbery/db/union.py:63-76 | Adding querysets one after another adds exactly their models. |
| Union.AddedAllKeepsPlaces | shrubbery/db/union.py:69-75 | Adding querysets one after another keeps every model at its position: a repeat is merged in place and a new model is appended. |
| Union.RepeatModelMergedInPlace | shrubbery/db/union.py:69-73 | Adding `a`, `b`, then `c` of `a`'s model gives `[c or-ed with a, b]`: the repeat model is merged in place. |
| Union.SortKeyOf | shrubbery/db/union.py:103-118 | `"-attr"` sorts by `attr` with `reverse` flipped, and `""` raises `IndexError`. |
| Union.DashFlips | shrubbery/db/union.py:108-110 | `sort("-x", r)` is `sort("x", not r)`. |
| Union.Truncated | shrubbery/db/union.py:96-97 | With a stop, each queryset is cut to `qs[:stop]`. |
| Union.TruncatedOrdered | shrubbery/db/union.py:96-100 | Cutting keeps each input ordered. |
| Union.UnionQuerySet.constructor | shrubbery/db/union.py:54-61 | Adds every source in turn, with no limits and no sort. The models are exactly those of the sources. A row is in some queryset exactly when some source stands for it: a queryset's row, a model's row, or a row of a model that `get_sub_models(direct=True)` collects for an abstract model. Those are the nearest concrete (non-proxy, non-virtual) subclasses on each chain of subclasses. When no source is an abstract model class, the querysets are the sources' querysets added one after another with `_add_qs`. |
| Union.UnionQuerySet.AddQuery | shrubbery/db/union.py:68-76 | `querysets` becomes `Added(...)`, and `querysets_by_model` keeps agreeing with it. |
| Union.UnionQuerySet.AddSource | shrubbery/db/union.py:63-76 | A queryset, or a concrete model's queryset of all its rows, is added with `Added`. An abstract model adds the querysets of all rows of the nearest concrete (non-proxy, non-virtual) subclasses on each of its chains of subclasses, each once, in some order. Either way the rows afterwards are the old rows plus the rows the source stands for, and the models in place stay in place. |
| Union.UnionQuerySet.AddModels | shrubbery/db/union.py:64-66 | The querysets afterwards are the old ones with `QuerySet(m, db(m))` added for each model of `subs`, each exactly once, in some order. The rows afterwards are the old rows plus those of the models of `subs`. |
| Union.UnionQuerySet.Clone | shrubbery/db/union.py:78-89 | A fresh copy with the same querysets, limits and sort. |
| Union.UnionQuerySet.Sort | shrubbery/db/union.py:103-118 | A fresh clone with the sort key and direction, leaving the original unchanged. |
| Union.UnionQuerySet.GetSlice | shrubbery/db/union.py:167-170 | A fresh clone whose limits are `(start, stop)`. |
| Union.UnionQuerySet.OrSource | shrubbery/db/union.py:120-130 | Or-ing a union with a queryset gives a fresh valid clone holding `Added(querysets, qs)` with the same limits and sort; a model class raises `TypeError`. |
| Union.UnionQuerySet.OrUnion | shrubbery/db/union.py:125-129 | Or-ing two unions gives a fresh valid clone holding the other's querysets added in order, with the same limits and sort. |
| Union.UnionQuerySet.AddQueries | shrubbery/db/union.py:127-128 | The loop adds each queryset in order. |
| Union.UnionQuerySet.Coerce | shrubbery/db/union.py:144-148 | The model's queryset, or an empty one for that model. |
| Union.UnionQuerySet.GetItem | shrubbery/db/union.py:158-166 | `u[k]` is element `k` of the concatenation. Past the end it raises `IndexError`; a negative `k` is refused by the first queryset. |
| Union.UnionQuerySet.Iterate | shrubbery/db/union.py:91-101 | Unsorted, it is the as-written chain. Sorted, the result is the window `[start:stop]` of some merge of the querysets, each cut to `qs[:stop]` when `stop` is set and not 0. That merge is a permutation of their rows, and it is ordered by the key when every queryset is. A negative limit is refused. With no limits every row of the union comes out exactly once. |
| ManyRelatedJoin.Pruned | shrubbery/db/many_related_join.py:103-120 | `_optimize` returns a subset of its input, with no tautology and no clause having a proper subset in the result. |
| ManyRelatedJoin.OptimizeClauses | shrubbery/db/many_related_join.py:103-120 | The loop computes `Pruned`. It keeps a clause exactly when it is not tautological and has no proper subset in the input, so the result does not depend on iteration order. |
| ManyRelatedJoin.PrunedPreservesMeaning | shrubbery/db/many_related_join.py:107-114 | `_optimize` keeps the truth value under every assignment. |
| ManyRelatedJoin.StepCommutes | shrubbery/db/many_related_join.py:8-9 | Two product steps commute, so the product does not depend on the order of the input clauses. |
| ManyRelatedJoin.ProductHolds | shrubbery/db/many_related_join.py:6-10 | A cross-product clause picks one literal from each input, so the product holds exactly when some input clause holds entirely. |
| ManyRelatedJoin.CrossProduct | shrubbery/db/many_related_join.py:6-10 | The loop computes the product; it holds exactly when some input clause holds entirely. |
| ManyRelatedJoin.NegatedHolds | shrubbery/db/many_related_join.py:122-127 | `_negate(c)` holds exactly when `c` does not. |
| ManyRelatedJoin.PrunedProduct | shrubbery/db/many_related_join.py:6-10 | The picks of `cross_product` that `_optimize` keeps are exactly the clauses that meet every given clause, contain no smaller such clause, and are no tautology. |
| ManyRelatedJoin.PrunedNegated | shrubbery/db/many_related_join.py:103-127 | `_optimize(_negate(c))` keeps exactly the minimal non-tautological clauses holding the negation of some literal of every clause of `c`. |
| ManyRelatedJoin.MinimalBlocksAre | shrubbery/db/many_related_join.py:103-127 | A set of such blocking clauses, none a tautology or inside another, below every non-tautological blocking clause, is exactly what `_optimize(_negate(c))` keeps. |
| ManyRelatedJoin.NegateClauses | shrubbery/db/many_related_join.py:122-127 | De Morgan followed by the loop of `cross_product`. |
| ManyRelatedJoin.Optimized | shrubbery/db/many_related_join.py:78-101 | Trivial formulas are left alone. Otherwise the result is canonical: when `trivial` is set the conjunction is empty, and when it is not, the clauses are pruned. |
| ManyRelatedJoin.OptimizedPreservesMeaning | shrubbery/db/many_related_join.py:78-101 | `optimize` keeps the truth value. |
| ManyRelatedJoin.OptimizedDetectsConstants | shrubbery/db/many_related_join.py:89-100 | `trivial = False` is set only for unsatisfiable clauses, and `True` only for tautologies. |
| ManyRelatedJoin.ManyRelatedJoinQ.constructor | shrubbery/db/many_related_join.py:25-30 | `Q(obj)` is `{{(obj, False)}}`, and `Q()` is the empty conjunction. |
| ManyRelatedJoin.ManyRelatedJoinQ.Optimize | shrubbery/db/many_related_join.py:78-101 | The in-place passes leave the object at `Optimized(old value)`. |
| ManyRelatedJoin.New | shrubbery/db/many_related_join.py:25-30 | A fresh formula is valid and not trivial; its conjunction is empty exactly when no object is given. |
| ManyRelatedJoin.NewMeaning | shrubbery/db/many_related_join.py:25-30 | `Q(obj)` means "has obj", and `Q()` means true. |
| ManyRelatedJoin.CloneOf | shrubbery/db/many_related_join.py:57-61 | `clone(conj)` is the optimised, canonical formula. |
| ManyRelatedJoin.And | shrubbery/db/many_related_join.py:129-138 | A left `False` returns `self`. A term or a formula gives a result, and any other operand raises `TypeError`. |
| ManyRelatedJoin.AndIsCanonical | shrubbery/db/many_related_join.py:133-137 | The result of `&` is canonical. |
| ManyRelatedJoin.AndTermMeaning | shrubbery/db/many_related_join.py:132-134 | `p & t` means `p and t`. |
| ManyRelatedJoin.AndMeaning | shrubbery/db/many_related_join.py:135-137 | `p & q` means `p and q` for a `q` that is not `False`. |
| ManyRelatedJoin.AndFalseKeepsLeft | shrubbery/db/many_related_join.py:136 | `p & False` yields `p`: the trivial operand contributes no clauses. |
| ManyRelatedJoin.Or | shrubbery/db/many_related_join.py:140-149 | A left `True` returns `self`. A term or a formula gives a result, and any other operand raises `TypeError`. |
| ManyRelatedJoin.OrIsCanonical | shrubbery/db/many_related_join.py:143-148 | The result of or-ing a formula that is not `True` is canonical (optimized, no tautology, antichain). |
| ManyRelatedJoin.OrTermMeaning | shrubbery/db/many_related_join.py:143-145 | `p` or-ed with `t` adds `t` to every clause and means `p or t`, for a `p` that is not `False`. |
| ManyRelatedJoin.OrMeaning | shrubbery/db/many_related_join.py:146-148 | The pairwise clause unions mean `p or q`, for operands that are not `False`. |
| ManyRelatedJoin.OrWithFalseIsTrue | shrubbery/db/many_related_join.py:140-148 | `x` or-ed with `False`, and `False` or-ed with anything supported, both yield `True`. |
| ManyRelatedJoin.AndFalseCounterexample | shrubbery/db/many_related_join.py:135-137 | `Q(t) & False` holds when `t` does. |
| ManyRelatedJoin.AndCorrected | shrubbery/db/many_related_join.py:129-138 | `&`, with a `False` right operand giving `False`. |
| ManyRelatedJoin.AndCorrectedMeaning | shrubbery/db/many_related_join.py:129-138 | The corrected `p & q` means `p and q` for every `q`. |
| ManyRelatedJoin.OrCorrected | shrubbery/db/many_related_join.py:140-149 | The corrected or: a `True` left side short-circuits, and otherwise it succeeds exactly for a supported operand. |
| ManyRelatedJoin.OrCorrectedMeaning | shrubbery/db/many_related_join.py:140-149 | The corrected `p` or-ed with `q` succeeds and means `p or q`, for every `q` including `False`. |
| ManyRelatedJoin.OrCorrectedTermMeaning | shrubbery/db/many_related_join.py:143-145 | The corrected `p` or-ed with a term `t` succeeds and means `p or t`, for every `p` including `False`. |
| ManyRelatedJoin.Invert | shrubbery/db/many_related_join.py:151-158 | A trivial formula flips its flag, with empty clauses. Otherwise the result is the canonical `_negate`. |
| ManyRelatedJoin.InvertMeaning | shrubbery/db/many_related_join.py:151-158 | `~p` means `not p`. |
| ManyRelatedJoin.DoubleInvertMeaning | shrubbery/db/many_related_join.py:151-158 | `~~p` means `p`. (See also shrubbery/db/tests/many_related_join.py:100.) |
| ManyRelatedJoin.AllMeaning | shrubbery/db/many_related_join.py:236-238 | `all(*objs)` holds exactly when every one of the objects does, so `all()` is `True`. |
| ManyRelatedJoin.AnyMeaning | shrubbery/db/many_related_join.py:240-242 | `any(*objs)` holds exactly when some one of the objects does, so `any()` is `False`. |
| ManyRelatedJoin.EqualIsIdentity | shrubbery/db/many_related_join.py:160-163 | On canonical formulas, `==` is equality of the flag and the clauses. |
| ManyRelatedJoin.LessOrder | shrubbery/db/many_related_join.py:168-184 | `False < f` always holds, and `f > False` mirrors it. `True < f` holds exactly when `f` is `True`. A non-trivial formula with clauses is neither `<` itself nor `< True`. |
| ManyRelatedJoin.LessIsNotImplication | shrubbery/db/many_related_join.py:173-181 | `{{1}} < {{1,2},{3}}` holds, yet the left side does not imply the right. |
| ManyRelatedJoin.ImpliesIsSound | shrubbery/db/many_related_join.py:168-181 | The corrected quantifier order (every clause of `other` is implied by a clause of `self`) is sound for implication. |
| ManyRelatedJoin.ImpliesOrder | shrubbery/db/many_related_join.py:168-172 | Under the corrected order, `False` is least, `True` is greatest, and every formula implies itself. |
| ManyRelatedJoin.Len | shrubbery/db/many_related_join.py:186-187 | `len` is 0 for trivial formulas and positive for non-trivial canonical ones. |
| ManyRelatedJoin.AddToQuery | shrubbery/db/many_related_join.py:38-55 | `True` adds nothing and `False` forces empty. Canonical formulas always get a plan; only an empty clause can fail the aggregate's `iter(disj).next()`. |
| ManyRelatedJoin.AddToQueryMatches | shrubbery/db/many_related_join.py:38-55 | The objects a plan selects are exactly those satisfying the formula. This holds for both the grouped count (the required count being the number of clauses) and the per-clause filters. (See also shrubbery/db/tests/many_related_join.py:87-94.) |
| ManyRelatedJoin.SingletonTermsCount | shrubbery/db/many_related_join.py:43-52 | With singleton, positive clauses, the count of distinct terms equals the number of clauses. |
| ManyRelatedJoinRepr.JoinClauses | shrubbery/db/many_related_join.py:193-197 | Non-empty groups print as `(…)` joined by `" & "`. |
| ManyRelatedJoinRepr.Repr | shrubbery/db/many_related_join.py:189-197 | `repr` is `"true"` exactly for an empty conjunction, which includes the `False` constant. |
| ManyRelatedJoinRepr.ReprOfListing | shrubbery/db/many_related_join.py:192-197 | For a non-empty conjunction, the text is any ascending arrangement of the clauses' key lists joined, where each clause gives its own list (two clauses that print alike both appear) and each literal its own `(label, negated)` key (labels that collide both appear). |
| ManyRelatedJoinRepr.ReprKeepsRepeatedLiterals | shrubbery/db/many_related_join.py:192-196 | Two different terms with one label print that label twice inside their clause. |
| ManyRelatedJoinRepr.ReprKeepsRepeatedClauses | shrubbery/db/many_related_join.py:192-197 | Two clauses with the same listing are both printed, `(A) & (A)`. |
| ManyRelatedJoinDoctests.NotAOrBAndC | shrubbery/db/tests/many_related_join.py:97 | For any three distinct tags, `b & c` keeps the clauses `b` and `c`; `a` or-ed with that keeps the two clauses of `a` with `b` and of `a` with `c`; inverting that gives the clause `~a` and the clause of `~b` with `~c`. |
| ManyRelatedJoinDoctests.ReprNotAOrBAndC | shrubbery/db/tests/many_related_join.py:97 | The doctest expression `~(a OR b & c)`, built with `FooTagQ`, `And`, `Or` and `Invert` over tags named A, B, C, prints exactly the expected text `(~A) & (~B OR ~C)` (with the bar for OR). |
| ManyRelatedJoinDoctests.AAndBOrCAndD | shrubbery/db/tests/many_related_join.py:98 | For any four distinct tags, `a & b` and `c & d` keep their unit clauses and or-ing them gives the four pairwise clauses (a,c), (a,d), (b,c), (b,d), which `optimize` leaves as they are. |
| ManyRelatedJoinDoctests.ReprAAndBOrCAndD | shrubbery/db/tests/many_related_join.py:98 | The doctest expression `(a & b) OR (c & d)` succeeds and prints exactly the expected four clauses in sorted order. |
| ManyRelatedJoinDoctests.ExclusiveOr | shrubbery/db/tests/many_related_join.py:99 | For two distinct tags, `~a & b` and `a & ~b` keep their unit clauses, and or-ing them drops the two tautological unions and leaves the clause of `a` with `b` and the clause of `~a` with `~b`. |
| ManyRelatedJoinDoctests.ReprExclusiveOr | shrubbery/db/tests/many_related_join.py:99 | The doctest expression `(~a & b) OR (a & ~b)` succeeds and prints exactly the expected text. |
| ManyRelatedJoinDoctests.NotNotAAndBAndC | shrubbery/db/tests/many_related_join.py:100 | For three distinct tags, `a & b & c` keeps three unit clauses, one inversion gives the single clause of the three negations, and the second gives back the three unit clauses. |
| ManyRelatedJoinDoctests.ReprNotNotAAndBAndC | shrubbery/db/tests/many_related_join.py:100 | The doctest expression `~~(a & b & c)` succeeds and prints exactly `(A) & (B) & (C)`. |
| ManyRelatedJoinDoctests.NotAOrA | shrubbery/db/tests/many_related_join.py:101 | For any tag, `~a` is the clause `~a`, and or-ing `a` into it leaves only a tautology, so `optimize` sets the formula to the `True` constant with no clauses. |
| ManyRelatedJoinDoctests.ReprNotAOrA | shrubbery/db/tests/many_related_join.py:101 | The doctest expression `~a OR a` succeeds and prints exactly `true`. |
| ManyRelatedJoinDoctests.AAndNotAOrB | shrubbery/db/tests/many_related_join.py:102 | For two distinct tags, `~a OR b` is the clause of `~a` with `b`, and and-ing `a` with it gives the unit clauses `a` and `b`: the third pass of `optimize` absorbs `~a`. |
| ManyRelatedJoinDoctests.ReprAAndNotAOrB | shrubbery/db/tests/many_related_join.py:102 | The doctest expression `a & (~a OR b)` succeeds and prints exactly `(A) & (B)`. |
| ManyRelatedJoinPrefix.Repeat | shrubbery/db/many_related_join.py:203-206 | `op * k` has `k` copies (none for `k <= 0`). |
| ManyRelatedJoinPrefix.EncodeListing | shrubbery/db/many_related_join.py:200-208 | The empty conjunction encodes as `""`. |
| ManyRelatedJoinPrefix.EmptyListing | shrubbery/db/many_related_join.py:200-208 | The listing is empty exactly for an empty conjunction, and then encodes as `""`. |
| ManyRelatedJoinPrefix.ShowFold | shrubbery/db/many_related_join.py:203-208 | A clause or a conjunction encodes as `k-1` operators followed by its parts joined by the separator. |
| ManyRelatedJoinPrefix.ShowConj | shrubbery/db/many_related_join.py:200-208 | `get_prefix_notation` is the prefix form of the left-nested expression. |
| ManyRelatedJoinPrefix.ConjExprMeaning | shrubbery/db/many_related_join.py:200-208 | That expression means the conjunction. |
| ManyRelatedJoinPrefix.DigitRun | shrubbery/db/many_related_join.py:229-232 | The key read is the maximal digit run. |
| ManyRelatedJoinPrefix.ReadKey | shrubbery/db/many_related_join.py:229-233 | The read loop returns that run and the position after `seek(tell() - 1)`. |
| ManyRelatedJoinPrefix.Parse | shrubbery/db/many_related_join.py:211-234 | A successful parse ends within the input. |
| ManyRelatedJoinPrefix.ParseKey | shrubbery/db/many_related_join.py:229-234 | A key resolves to a term, or raises `DoesNotExist`. |
| ManyRelatedJoinPrefix.MissingSeparator | shrubbery/db/many_related_join.py:218-220 | `"A1"` and `"A1A2"` raise `ValueError("'-' expected")`. |
| ManyRelatedJoinPrefix.UnknownKey | shrubbery/db/many_related_join.py:229-234 | An unknown digit key raises `DoesNotExist`. |
| ManyRelatedJoinPrefix.EmptyInput | shrubbery/db/many_related_join.py:229-234 | An empty input looks up the key `""`. |
| ManyRelatedJoinPrefix.PrefixRoundTrip | shrubbery/db/many_related_join.py:200-234 | Decoding the encoding of a non-trivial formula gives a formula with the same truth value under every assignment. |

## Left out

- Django and the database:
  - No SQL is built. Querysets are sequences of rows, and `Q` objects are
    opaque leaves with a truth value.
  - `q_for_obj`, `query.add_q`/`add_aggregate` and `force_empty` become the
    returned `Plan` of `add_to_query`.
  - Transactions (`commit_on_success_unless_managed`) are left out.
- Generators and iterators are sequences. Laziness and the point at which an
  exception is raised mid-iteration are not modelled.
- ManyRelatedJoinQ:
  - The `objects` and `terms` properties are broken in the source and left out.
  - `_add` is inlined into `&` and `|`.
  - `__ne__` is the negation of `Equal`, and `__gt__` is `Greater`.
  - `contains_negation` is the predicate `ContainsNegation`, without a member
    of its own.
- ManyRelatedJoin.And / ManyRelatedJoin.Or: these are the operations as
  written; the prefix parser uses them. The round trip involves only
  satisfiable clauses, so the `False` quirk does not arise there.
- ManyRelatedJoin.AddToQuery: its own ensures states only the trivial cases.
  The meaning of the plan is stated in `AddToQueryMatches`.
- ManyRelatedJoinPrefix.Parse: its own ensures states only that the position
  stays within the input. The stream reading is a string plus a position.
  `resolve` stands for `get_query_set(cls.model).get(key=...)`, and `key`
  stands for `getattr(tag, key)`.
- ManyRelatedJoin.Optimized, CloneOf, And, Or, Invert, All, Any: these are
  ghost functions, because iterating a set is a choice in Dafny. The
  imperative parts (`_optimize`, `cross_product`, `_negate` and `optimize` on
  the object) are methods proved against them.
- CompoundQ: only the bookkeeping and the truth value are modelled.
  `__and__`/`__or__` are `combine` with a fixed connector, and the `&=`/`|=`
  on the first Q member give that member's conjunction.
- db/utils.py: `get_q`, `get_model`, `get_manager`, `get_query_set`,
  `fetch`, `replace_text`, `get_by_ref`, `get_app_path`,
  `create_intermediate_model` and the signal handlers are framework calls.
- DbUtils.JoinQuery.ForgeJoin: forging an alias that is already mapped is
  not covered by `ForgeKeepsConsistent`. The source's callers reuse an alias
  only after `remove_join`.
- UnionQuerySet:
  - `as_sql`, `_execute_union`, `fetch_values`, `fetch_objects`,
    `get_common_fields`, `order_and_sort_by`, `add_proxy` and `__repr__` are
    SQL or delegation.
  - `__and__` is left out. With a queryset it is Django's SQL intersection;
    with a union it applies `&` to two lists (line 140).
  - `models`/`queries` are the projections `Models`/`Parts`.
  - Union.UnionQuerySet.GetItem: a negative index is passed to the first
    queryset, and Django refuses it (`AssertionError` here). The ORM's
    `IndexError` per part is modelled by length.
  - Union.UnionQuerySet.Iterate: the sort key is an attribute read through
    the given `getattr`, or the row's own rank. Key functions passed as
    callables are modelled by `KeyFn` only.
- Union.Or: the contract states which rows the or-ed query holds, not their
  order. The model lists the left operand's rows and then the right
  operand's new ones. The source gets the database's order for an OR query,
  which the model does not know.
- Union.Insort: heads with equal keys are kept in insertion order. The source
  inserts `(key, row, iterator)` tuples, so it breaks a tie by comparing the
  rows and then the iterators.
- Union.ChainedUnionCorrected: for a negative start or stop the result is
  not Python's slice counted from the end. A negative start reads as 0 and
  a negative stop yields nothing (`Union.NegativeBoundsAtEdges`), as the
  source's own arithmetic does. Django querysets refuse negative slicing.
- Union.AsWrittenAgrees: the agreement is with the same clamped window, so
  for negative bounds it is not a statement about Python's slice.
- Union.Head: sort keys are integers. The source compares any Python values
  that `key` returns.
- reverse_list.py:
  - `reverse()` uses an undefined variable and is left out. The field and
    model factories are glue.
  - `sort` takes an integer key function; its `cmp` and `reverse` arguments
    are left out.
  - `index(v, lower, upper)` ignores its bounds in the source, and so does
    the model.
  - Rows are read in index order, as the list model's default ordering gives.
- ReverseList.ListTable.SetSlice: requires a start of at most the length.
  `clean_slice` keeps a non-negative start past the end, so the source
  creates rows beyond the end. That leaves a gap in the indices, which the
  list model does not represent.
- ReverseList.ListTable.Insert: requires an index of at most the length, for
  the same reason. Python would append instead.
- reverse_dict.py:
  - `__contains__` calls a method that does not exist (`_getitem`), and
    `update` passes the dict on to the manager's own `update`. Both are left
    out.
  - `get` with a Q-like argument is the manager's own `get` and is left out.
  - `__len__` is the size of `Contents`.
  - The order of `items()`/`keys()`/`values()` is any listing of the keys.
- UrlMap:
  - The decorator form of `register` uses an undefined name and is left out.
  - `redirect_to`, `get_root_urlmap` and `autodiscover` are left out, and
    `include` of a module path (`import_module`) is `None`.
  - `defaults` is taken as a sequence of pairs, which the loop at line 93
    iterates. The source stores a dict there, whose iteration yields keys.
  - `django_reverse` is the result value `Reversed(view, kwargs)`, and the
    mapper is applied through the parameter `apply`.
  - The MRO is a given sequence.
- BaseEncoding.BaseEncode: requires `x >= 0` and `|chars| != 1` for a
  positive `x`, because the source loops forever there. `LoopNeverEnds`
  states that loop, and `BaseEncodeCorrected` rejects those inputs.
- Text: `camel_split` needs a regular-expression engine and is left out.
  Case mapping is ASCII only.
- PaginationRepr: only the two doctests `ReprLastPage` and `ReprFirstPage`
  are proved as text. The other doctests are proved as range sequences
  (`Pagination.Doctest…`). `PageRange.__iter__` is the interval `Interval`.
  The paginator enters as the page count `n` and the page `p`.
- ForceIter: a value is a string, an iterable or anything else, given as a
  datatype; Python's `iter()` probing is not modelled.

## Findings

| source | as written | input that shows it | evidently intended | confidence | as-written member | corrected member |
|---|---|---|---|---|---|---|
| shrubbery/utils/pagination.py:17 | The ellipsis literal `u"â€¦"` in a file declared UTF-8 is the three characters U+00E2 U+20AC U+00A6: the UTF-8 bytes of U+2026 read as Windows-1252 | `unicode(PageRange(1, 5, ellipsis=True))` gives `â€¦` | the single character U+2026 | high, not executed | PaginationRepr.EllipsisMisEncoded | PaginationRepr.RangeUnicodeCorrected |
| shrubbery/db/many_related_join.py:136-147 | A trivial right operand contributes its empty clause set, so `x & False` is `x` and `x` or-ed with `False` is `True` | `Q(t) & False` holds for an object tagged `t` | `x & False` is `False`, and `x` or-ed with `False` is `x` | medium, not executed | ManyRelatedJoin.AndFalseCounterexample | ManyRelatedJoin.AndCorrectedMeaning |
| shrubbery/db/many_related_join.py:147 | `x` or-ed with `False` with a non-trivial `x` yields `True` | `Q(t)` or-ed with `False` is `True` | `Q(t)` | medium, not executed | ManyRelatedJoin.OrWithFalseIsTrue | ManyRelatedJoin.OrCorrectedMeaning |
| shrubbery/db/many_related_join.py:173-181 | `self < other` when every clause of `self` is a proper subset of some clause of `other` | `{{1}} < {{1,2},{3}}`, yet tag 1 alone satisfies the left side and not the right | every clause of `other` has a subset among the clauses of `self` (implication) | medium, not executed | ManyRelatedJoin.LessIsNotImplication | ManyRelatedJoin.ImpliesIsSound |
| shrubbery/db/fields/reverse/reverse_list.py:115-128 | `izip(indices, values)` consumes one index beyond the last value, so that index is never deleted | `l = [10,11,12,13]; l[0:2] = [99]` gives `[99,11,12,13]` | `[99,12,13]` | high, not executed | ReverseList.SurplusIndexKept | ReverseList.ListTable.SetSliceCorrected |
| shrubbery/db/fields/reverse/reverse_list.py:129-135 | With `stop < start`, surplus values are inserted at `stop` | `l[3:1] = [99]` inserts at index 1 | insert at index 3, as Python does | medium, not executed | ReverseList.ReversedBoundsInsertAtStop | ReverseList.ListTable.SetSliceCorrected |
| shrubbery/db/union.py:49-51 | The offset adds `qs_start` on top of the sliced length, so it overshoots once the start lies past the first part | `start=2` over `[[a],[b],[c]]` yields `[b, c]` | `[c]` | high, not executed | Union.OffsetOvershoot | Union.ChainedUnionCorrected |
| shrubbery/db/union.py:41 | `if stop:` treats a stop of 0 as absent | `u[:0]` over `[[a]]` yields `[a]` | `[]` | medium, not executed | Union.ZeroStopYieldsAll | Union.ChainedUnionCorrected |
| shrubbery/db/utils.py:180 | The cache key omits `virtual` | `get_sub_models(m)` then `get_sub_models(m, virtual=True)` for a model with one virtual subclass returns the empty set both times | `virtual` is part of the key | high, not executed | DbUtils.VirtualIgnoredByCache | DbUtils.FullKeySubModelsCache.GetSubModels |
| shrubbery/utils/encoding.py:5-7 | `while n` with `n, i = divmod(n, b)` never ends for a negative `x` or a one-character alphabet | `base_encode(-1)`: `divmod(-1, 10)` is `(-1, 9)`; `base_encode(5, 'a')`: `divmod(5, 1)` is `(5, 0)` | reject those inputs | medium, not executed | BaseEncoding.LoopNeverEnds | BaseEncoding.BaseEncodeCorrected |
