# A verified model of a singly-linked integer list

`list.c` implements a singly-linked list of `int` values. A list object
holds a link to its first node, and each node holds one value and a
link to the next node. The library offers these operations:

- allocate an empty list;
- count its nodes;
- add a value at the back, at the front or at a 1-based position;
- remove the value at the back, at the front or at a 1-based position;
- test membership;
- fetch the value at a position;
- find the position of the first occurrence of a value;
- serialise the list into a heap buffer as `v1->v2->...->NULL`.

Positions are 1-based. The functions that return an element
(`list_remove_from_back`, `list_remove_from_front`, `list_remove_at_index`,
`list_get_elem_at`) and `list_get_index_of` use `-1` to mean "error".

This project models that library in Dafny and proves what each operation
does to the sequence of values the list holds.

- `Decimal` (`decimal.dfy`) is the text of an `int` as `%d` writes it. It
  proves that the text reads back as the same number, so distinct numbers
  give distinct text.
- `ListFormat` (`list_format.dfy`) is the text of a whole list (`Render`),
  stated as a pure function. It holds a parser for that text and proves the
  round trip `ParseRender(Render(s)) == Some(s)`. It also proves that the
  text holds no NUL, so the C string ends exactly where the rendering ends.
- `LinkedList` (`linked_list.dfy`) holds the imperative model.
  - `Node` and `List` are classes whose fields are updated in place, as in
    the C code.
  - A `List` carries the ghost sequences `Contents` and `Nodes` and a ghost
    footprint `Repr`.
  - `Valid()` states four things: the chain from `head` visits `Nodes` in
    order; no node repeats; the chain ends in null; node i holds
    `Contents[i]`.
  - Every operation is a method with the same loops and the same branches as
    its C function. Its contract relates the new `Contents` to the old one,
    and it preserves `Valid()`.
  - The pure functions `InsertAt` and `RemoveAt` give the meaning of
    positional insertion and removal. They are each other's inverse.
  - `ToString` fills an `array<char>` with the same growth policy as
    `listToString`: start at 256 chars, double while `used + n + 1 >= capacity`
    (a node's text and a NUL must fit with at least one char to spare), and
    finally, when `used + 5 >= capacity` (`NULL` and a NUL do not fit with a
    char to spare), reallocate to exactly `used + 5` chars. It is proved to
    produce exactly `Render(Contents)` followed by a NUL.

The error sentinel `-1` is kept as `Failure`. A list may itself hold `-1`,
so every contract says when `Failure` means failure: for example, an empty
list, or an index outside `1..length`. The comment of `listToString`
(list.c:59-61) does not give the text format; `Render` follows the `"%d->"`
conversion of list.c:79, with no spaces. `list_print` uses the different
format `"%d ->"` and is not modelled.

## Model

| member | source | states |
|---|---|---|
| LinkedList.Node.constructor | list.c:133-142 | a new node holds the given value and has no successor |
| LinkedList.List.Valid | list.c:150-159 | the chain invariant every function relies on: `head` is null exactly when the list is empty, as the empty-list tests of list.c:150, 208 and 231 assume |
| LinkedList.List.constructor | list.c:9-17 | a new list is valid, owns only fresh objects and holds no values |
| LinkedList.List.SuccessorOf | list.c:155-159 | in a valid chain, node k links to node k+1, and only the last node has a null `next`; this is the fact every cursor walk stops on |
| LinkedList.List.Length | list.c:121-130 | the number of nodes counted by walking from `head` equals the number of values the list holds |
| LinkedList.List.AddToBack | list.c:145-160 | the list stays valid and now holds its old values followed by `value`; the empty case sets `head` |
| LinkedList.List.AddToFront | list.c:163-169 | the list stays valid and now holds `value` followed by its old values |
| LinkedList.List.AddAtIndex | list.c:176-204 | the list stays valid and holds `InsertAt(old values, value, index)`: `value` lands at position `index` for 1 <= index <= length+1, and any other index leaves the list unchanged |
| LinkedList.List.LinkAfter | list.c:200-203 | linking a new node after node p keeps the chain valid and puts `value` right after the p+1 values before it |
| LinkedList.InsertAt | list.c:171-175 | inserting at `index` gives a sequence one longer with `value` at position `index`; index 1 prepends, index length+1 appends, an out-of-range index changes nothing |
| LinkedList.RemoveAt | list.c:240-242 | removing at `index` gives a sequence one shorter; index 1 drops the first value, index length drops the last, an out-of-range index changes nothing |
| LinkedList.RemoveAtInsertAt | list.c:240-265 | removing at the position just inserted at gives back the original values |
| LinkedList.InsertAtRemoveAt | list.c:176-204 | re-inserting a removed value at its old position gives back the original values |
| LinkedList.List.RemoveFromBack | list.c:207-227 | on an empty list it returns -1 and changes nothing; otherwise it returns the last value and the list holds all but the last value, in both the one-node and the longer cases |
| LinkedList.List.RemoveFromFront | list.c:230-238 | on an empty list it returns -1 and changes nothing; otherwise it returns the first value and the list holds the rest |
| LinkedList.List.RemoveAtIndex | list.c:243-265 | for 1 <= index <= length it returns the value at `index`, otherwise -1; the list holds `RemoveAt(old values, index)`, so it is unchanged on failure |
| LinkedList.List.UnlinkAfter | list.c:258-264 | taking node p's successor out of the chain returns its value and removes exactly that value, keeping the chain valid |
| LinkedList.List.IsIn | list.c:268-277 | the result is true exactly when some value of the list equals `value` |
| LinkedList.List.GetElemAt | list.c:280-291 | for 1 <= index <= length it returns the value at that position, otherwise -1 |
| LinkedList.List.GetIndexOf | list.c:295-306 | if `value` occurs, the result is a valid position holding it with no earlier occurrence; if it does not occur, the result is -1 |
| LinkedList.List.AppendNodes | list.c:67-100 | the node loop starts from a 256-char buffer and ends with all the node texts followed by a NUL, in a buffer whose size is 256 doubled some number of times |
| LinkedList.List.ToString | list.c:62-118 | returns a fresh buffer starting with the list's rendering `v1->...->NULL`, followed by a NUL, with no NUL before it and room for both; its size is either 256 doubled some number of times or exactly the rendering plus its NUL (the final reallocation) |
| LinkedList.AppendGrowing | list.c:84-98 | with n the length of the node text: when `used + n + 1 < capacity` the same buffer and capacity are kept; otherwise a fresh buffer whose capacity is the old one doubled one or more times (`Doubled`), at least twice the old one and at most `2 * (used + n + 1)`, so exactly the first doubling with `used + n + 1 < capacity`; either way the text, its NUL and one more char fit (`used + n + 1 < capacity`), and the buffer holds the old text, the node text and a NUL |
| LinkedList.AppendNode | list.c:76-99 | one pass of the node loop: the buffer holds the old text followed by the node's `%d->` text and a NUL, and a capacity that is 256 doubled e times is again 256 doubled some number of times |
| LinkedList.AppendTerminator | list.c:102-115 | when `used + 5 >= capacity` (as list.c:105 tests, so also when `NULL` and a NUL exactly fill the buffer), a fresh buffer of exactly used+5 chars, otherwise the same buffer; either way it holds the old text followed by `NULL` and a NUL |
| LinkedList.Doubled | list.c:86-87 | a capacity doubled k times is never smaller than before, and at least twice as large after one doubling or more |
| LinkedList.DoubledAdd | list.c:86-87 | doubling e times and then k more times is doubling e + k times, so the capacities of successive growth steps stay 256 doubled some number of times |
| LinkedList.Realloc | list.c:88 | a fresh buffer of the requested size that starts with the old buffer's contents |
| LinkedList.CopyInto | list.c:96 | the text is copied to the given offset, and the chars before and after it are unchanged |
| Decimal.DigitChar | list.c:79 | the character written for a digit is a decimal digit that reads back as that digit |
| Decimal.NatToDecimal | list.c:79 | the digits of a natural number are non-empty, all decimal, and have no leading zero; zero is written as the single digit "0" |
| Decimal.IntToDecimal | list.c:79 | the `%d` text of an int is non-empty and starts with '-' exactly when the int is negative; the rest is digits with no leading zero, and zero is written "0" |
| Decimal.NatToDecimalRoundTrip | list.c:79 | the digits written for n read back as n |
| Decimal.IntToDecimalRoundTrip | list.c:79 | the `%d` text of any int is a well-formed token that reads back as the same int |
| Decimal.IntToDecimalInjective | list.c:79 | distinct ints get distinct `%d` texts |
| LinkedList.Failure | list.c:208 | the `-1` returned on failure at list.c:208, 231, 244-245, 258, 281, 290, 296 and 305; every method row above says when it is returned |
| ListFormat.Item | list.c:79 | the `%d->` text of one node ends in "->", and what precedes the arrow is a decimal token that reads back as the node's value |
| ListFormat.RenderItems | list.c:75-100 | the node texts the loop accumulates are empty exactly for the empty list and take at least three chars per node |
| ListFormat.Render | list.c:62-118 | the full text `listToString` returns ends in `NULL` and takes at least three chars per node plus four |
| ListFormat.RenderItemsAppend | list.c:76-100 | adding a value at the end of the list adds exactly that value's `%d->` text at the end of the rendering |
| ListFormat.RenderItemsPrefix | list.c:96-98 | the node texts of the first k+1 values are those of the first k values followed by node k's text |
| ListFormat.RenderCons | list.c:62-118 | a non-empty list renders as its first value's text, then "->", then the rendering of the rest |
| ListFormat.ItemHasNoNul | list.c:79 | the `%d->` text of a node holds no NUL |
| ListFormat.RenderItemsHasNoNul | list.c:75-100 | the node texts the loop accumulates hold no NUL |
| ListFormat.RenderHasNoNul | list.c:113-117 | no NUL occurs in a rendering, so the returned C string is exactly the rendering |
| ListFormat.ArrowAfterToken | list.c:79 | in a node text followed by anything, the first '>' is the one ending that node's arrow |
| ListFormat.ParseNode | list.c:79 | parsing text that starts with a node's text yields that node's value in front of what the rest parses to |
| ListFormat.RenderRoundTrip | list.c:62-118 | parsing a rendering gives back exactly the values of the list, in order |
| ListFormat.RenderInjective | list.c:62-118 | two lists with the same rendering hold the same values |

## Left out

- `list_free` (list.c:21-36) is not modelled. Dafny has no explicit deallocation: a node removed from the chain is dropped from `Repr` and is no longer reachable.
- `list_print` (list.c:40-57) is not modelled. It only writes to standard output, and its text differs from `listToString`'s (`%d ->` with a space, plus the `LIST IS NULL` and `LIST IS EMPTY` messages).
- Allocation failure is not modelled, because Dafny's `new` always succeeds. This covers:
  - the `NULL` return of `list_alloc` (list.c:11-14);
  - the `exit` in `create_node` (list.c:135-138);
  - the `NULL` returns of `listToString` after a failed `malloc` or `realloc` (list.c:70-72, 89-92, 107-110).
- The negative return of `snprintf` in `listToString` (list.c:80-83) is not modelled. It cannot happen for `%d->` with an `int`, and the model computes the node text with `Item` instead of calling `snprintf`.
- The `list == NULL` early returns (list.c:63-65, 122, 146, 164, 177, 208, 231, 244, 269, 281, 296) are not modelled. A method call in Dafny always has a non-null receiver.
- Integer widths are not modelled. Values are unbounded `int`, and counters and positions are unbounded `int`/`nat` instead of C `int` and `size_t`. Neither a count above `INT_MAX` nor a `size_t` capacity overflow is modelled. The 32-char `tmp` buffer of `listToString` is large enough only because the C `int` has 32 bits; the model does not use a fixed-size buffer there.
- `list.h` is not part of this model. Its `elem` is taken to be `int`, as `%d` in `listToString` requires, and `list_t` and `node_t` are taken to be the `head` holder and the value/next node that `list.c` uses.
- `LinkedList.Realloc`: models C's `realloc` as a copy into a fresh array. The model does not capture growing in place, where the old buffer stays valid.
