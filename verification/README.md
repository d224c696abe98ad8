# atf: the string map and the message wrapping helpers

A Dafny model of two small pieces of the Automated Testing Framework (atf).

- **`atf_map`** is the string-keyed container of atf-c. Its implementation
  (`atf-c/map.c`) is not part of this model. The model states the contract
  that the container's unit tests pin down (`tests/atf/atf-c/t_map.c`):
  - `init` gives an empty map;
  - `insert` binds a key to a value and remembers whether the map owns the
    value, replacing an earlier binding;
  - `find_c` returns an iterator at the key's entry or the end iterator;
  - `end_c` is the end iterator, and two iterators are equal when both are
    at the end or both are at the same key;
  - `citer_data` gives the value at an iterator;
  - `size` counts the keys.

  Each test case is restated as a method that returns what the test
  observes. Values are pointers, compared by identity.
- **The text helpers of `libs/atfprivate/ui.cpp`**:
  - `atf::split` breaks a string on a delimiter and drops empty pieces.
  - `format_paragraph` wraps one line greedily at the terminal width. Every
    output line starts with a prefix of `col` columns: the tag padded with
    blanks, or blanks alone.
  - `format_text_with_tag` wraps every non-empty line of a text as a
    paragraph. It separates the paragraphs with an empty line, or with a
    line holding just the tag.
  - `format_error`, `format_warning`, `format_info` and `format_text` call
    it with a fixed tag.

Files:

- `options.dfy` (module `Options`): `Option`, where `None` stands for `std::string::npos`.
- `strings.dfy` (module `Strings`):
  - `std::string::find` as `Find`;
  - `atf::split` as `Split`, a recursion over the scan position that
    mirrors the C++ loop;
  - an independent reference split that keeps empty pieces (`Pieces`);
  - `Join`.
- `ui.dfy` (module `Ui`):
  - the greedy layout of words into lines (`Layout`);
  - an independent characterisation of that layout (`IsGreedyLayout`),
    with proofs that the layout satisfies it and is the only layout that
    does;
  - the wrapped paragraph (`Paragraph`);
  - the loop of `format_paragraph` as written (`FormatParagraph`), proved
    equal to `Paragraph`.
- `messages.dfy` (module `Messages`): `format_text_with_tag` and the four
  functions built on it, with the line-by-line shape of the output, the line-length
  bound, the tagging of the lines and the preservation of the words.
- `atf_map.dfy` (module `AtfMap`): the container and its test scenarios.

A Dafny `char` stands for one byte of a `std::string`: lengths, the width
test and the column count are in bytes, as `length()` counts them in the
C++ code.

The terminal width is a parameter `width > 0` of every wrapping function.
The C++ code reads it from `COLUMNS` or from the terminal and falls back
to 79 (libs/atfprivate/ui.cpp:53-78). Functions whose C++ signature has a
defaulted `col` argument are modelled with that argument equal to 0, the
value `format_text` passes explicitly.

## Model

| member | source | states |
|---|---|---|
| Strings.FindSpec | libs/atfprivate/ui.cpp:185 | the search gives the first occurrence of the delimiter at or after the position, and gives npos exactly when there is none |
| Strings.Split | libs/atfprivate/ui.cpp:178-192 | splitting the empty string yields no pieces, with any delimiter, the empty one included |
| Strings.SplitFrom | libs/atfprivate/ui.cpp:183-191 | no piece produced by the scan is empty; a scan that starts at the end yields nothing |
| Strings.SplitFree | libs/atfprivate/ui.cpp:184-188 | no piece contains the delimiter |
| Strings.SplitIsNonEmptyPieces | libs/atfprivate/ui.cpp:184-189 | split equals the reference split with its empty pieces removed, so leading, trailing and repeated delimiters yield no piece |
| Strings.JoinPieces | libs/atfprivate/ui.cpp:184-189 | joining the reference pieces with the delimiter rebuilds the string, so the pieces are its maximal delimiter-free segments in order |
| Strings.SplitJoin | libs/atfprivate/ui.cpp:178-192 | for a one-character delimiter, splitting the join of non-empty delimiter-free words gives those words back |
| Strings.SplitEmptyStalls | libs/atfprivate/ui.cpp:184-189 | with an empty delimiter the search returns the scan position itself, so the position never advances and the scan of a non-empty rest of the string would not end; this is why `Split` takes an empty delimiter only on the empty string |
| Strings.SplitNothing | libs/atfprivate/ui.cpp:184-189 | with a one-character delimiter, split yields nothing exactly when the string holds only that character |
| Strings.SplitHead | libs/atfprivate/ui.cpp:185-187 | the first piece begins with every non-empty prefix in which no delimiter starts |
| Strings.SplitFirst | libs/atfprivate/ui.cpp:185-187 | a string made of a word, the delimiter and more has that word as its first piece |
| Strings.PiecesConcat | libs/atfprivate/ui.cpp:184-189 | the reference split of two texts joined at one delimiter is the concatenation of their splits |
| Ui.FirstPrefix | libs/atfprivate/ui.cpp:90-98 | the prefix of a paragraph's first line is exactly `col` characters long |
| Ui.ContPrefix | libs/atfprivate/ui.cpp:109-112 | the prefix of every later line is exactly `col` characters long |
| Ui.LayoutIsGreedy | libs/atfprivate/ui.cpp:104-121 | the layout keeps the words in order; it has no empty line unless there are no words; every line with two or more words fits in the width; every line break was forced by the next word |
| Ui.GreedyUnique | libs/atfprivate/ui.cpp:104-121 | two layouts of the same words that both obey the greedy rules are equal |
| Ui.LayoutIsTheGreedyLayout | libs/atfprivate/ui.cpp:104-121 | a layout obeys the greedy rules if and only if it is the layout built by the wrapping loop |
| Ui.Paragraph | libs/atfprivate/ui.cpp:88-98 | the paragraph is at least `col` long and starts with the tag padded with blanks when `first` or `repeat` holds, otherwise with `col` blanks |
| Ui.ParagraphShape | libs/atfprivate/ui.cpp:103-120 | the output lines are exactly the lines of the greedy layout of the words; each line is its prefix (the first line's prefix or the continuation prefix) followed by its words joined with single blanks |
| Ui.ParagraphLinesOk | libs/atfprivate/ui.cpp:104-121 | every output line is within the width, or holds nothing but its prefix, or its prefix and a single word |
| Ui.ParagraphStart | libs/atfprivate/ui.cpp:94-120 | a paragraph with words begins with the first line's prefix and then the first word |
| Ui.FillFromLayout | libs/atfprivate/ui.cpp:104-121 | from any state that matches the layout, the rest of the loop produces the prefixed layout lines joined by newlines |
| Ui.FormatParagraph | libs/atfprivate/ui.cpp:80-124 | the loop as written (newline and continuation prefix before a word that would pass the width, a blank before any other word except the first) produces the paragraph given by the greedy layout |
| Messages.FormatTextWithTag | libs/atfprivate/ui.cpp:144-170 | a text with no non-empty line gives the empty string; otherwise the output begins with the tag padded with blanks up to the column, where column 0 means the tag's length |
| Messages.TextShape | libs/atfprivate/ui.cpp:148-167 | the output's lines are one empty line when the text has no non-empty line; otherwise they are the first paragraph's prefixed layout lines, then for each later paragraph the separator line (empty, or the tag alone when repeated) followed by that paragraph's layout lines under the non-first prefixes |
| Messages.TagOnce | libs/atfprivate/ui.cpp:159-166 | without repetition every line after the first is an empty separator line or starts with the column's worth of blanks, so the tag is printed once |
| Messages.TextLinesOk | libs/atfprivate/ui.cpp:144-170 | every line of the output, including the lines between paragraphs, is within the width, or holds nothing past the column, or a single word past it |
| Messages.RepeatTagged | libs/atfprivate/ui.cpp:159-166 | with the tag repeated, every output line begins with the tag, the separator lines included |
| Messages.TextStart | libs/atfprivate/ui.cpp:148-160 | the output begins with the padded tag and then the first word of the first non-empty line |
| Messages.ParagraphWords | libs/atfprivate/ui.cpp:103-121 | an untagged paragraph broken at newlines and blanks gives back the words of its line, in order |
| Messages.JoinWords | libs/atfprivate/ui.cpp:161-166 | untagged paragraphs joined by empty lines hold the words of their lines, in order |
| Messages.FormatText | libs/atfprivate/ui.cpp:138-142 | plain text is reflowed without losing, adding or reordering a word |
| Messages.FormatError | libs/atfprivate/ui.cpp:126-130 | the output begins `prog: ERROR:` |
| Messages.FormatWarning | libs/atfprivate/ui.cpp:172-176 | the output begins `prog: WARNING:` |
| Messages.FormatInfo | libs/atfprivate/ui.cpp:132-136 | the output is empty exactly when the message holds nothing but newlines; otherwise it begins `prog: ` |
| AtfMap.Init | tests/atf/atf-c/t_map.c:56-58 | a new map has size 0 and no key is found in it |
| AtfMap.Size | tests/atf/atf-c/t_map.c:116-122 | the size is 0 exactly when the map has no entries |
| AtfMap.Find | tests/atf/atf-c/t_map.c:82-91 | find gives the end iterator exactly when the key has no entry, and otherwise an iterator at that key |
| AtfMap.EndC | tests/atf/atf-c/t_map.c:82-91 | a found iterator equals the end iterator exactly when the key has no entry |
| AtfMap.Equal | tests/atf/atf-c/t_map.c:82-91 | two iterators are equal exactly when both are at the end or both are at the same key |
| AtfMap.DataInsert | tests/atf/atf-c/t_map.c:125-134 | the data at the iterator found for an inserted key is the value inserted; for any other key already present it is the value it had before |
| AtfMap.Insert | tests/atf/atf-c/t_map.c:116-134 | after an insert the key is found with the new value and managed flag; every other key is found as before with its entry unchanged; the size grows by one exactly when the key was absent |
| AtfMap.MapInitTest | tests/atf/atf-c/t_map.c:48-60 | the size of a new map is 0 |
| AtfMap.FindCTest | tests/atf/atf-c/t_map.c:66-94 | with K1 and K2 inserted, K0 is not found, and K1 and K2 are found with their own values |
| AtfMap.MapInsertTest | tests/atf/atf-c/t_map.c:100-137 | the sizes observed are 0, 1, 2 and 3 as K1, K2 and K3 are inserted, and 3 after K3 is inserted again; K3's value is the first buffer before that and the second buffer after it |
| AtfMap.StableKeysTest | tests/atf/atf-c/t_map.c:143-170 | a key inserted from a caller's buffer is found, and the other key is not, both before and after the buffer is overwritten with the other key |

## Left out

- Strings.Split: requires a non-empty delimiter unless the string is empty. With an empty delimiter the C++ scan of a non-empty string never ends (see `SplitEmptyStalls`); on the empty string it stops at once and yields nothing, which the model covers. Every caller passes `" "` or `"\n"`.
- Text is modelled as a sequence of bytes. A Dafny `char` stands for one byte, so multi-byte characters count as several columns, exactly as in the C++ code. Unicode text is not modelled in any other way.
- `terminal_width` (libs/atfprivate/ui.cpp:53-78) reads the environment and calls `ioctl`, caching the result in a static. It is replaced by the parameter `width > 0`. The C++ code guarantees a positive value.
- Ui.FormatParagraph: `curcol` is a `size_t` in C++, and the model does not wrap it around. Only a paragraph longer than the address space could overflow it.
- The loop of `format_text_with_tag` is modelled as the join of the wrapped lines with the separator. That is what the loop appends: a paragraph, then a separator unless it is the last one. `TextShape` states the resulting lines independently of the join.
- Messages.FormatError, Messages.FormatWarning, Messages.FormatInfo: the program name may contain newlines, so only the prefix of the output is stated for these. The line bound and the tagging of every line are stated by `TextLinesOk` and `RepeatTagged` for tags without newlines.
- `atf_map` ownership: freeing managed values on overwrite or in `atf_map_fini`, and the error results for allocation failure. The implementation is not part of this model, and the tests only check that no error is returned. The `managed` flag is kept as data.
- `atf_map_fini` and key-ordered traversal of the map: no test states anything about them.
- The test harness macros (`ATF_TC`, `ATF_REQUIRE`, `ATF_TP_ADD_TCS`). Their scenarios are the test methods of `AtfMap`.
- `tests/atf/test_programs/h_cpp.cpp` and `tests/atf/tools/h_misc.cpp` are helper programs that create files, read the environment and run processes. They are not part of this model.
