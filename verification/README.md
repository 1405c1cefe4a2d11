# guietta grid layout, modelled in Dafny

guietta builds a Qt window from a table of rows. Each cell of the table is
one of four things:

- a widget;
- `_`, which stands for a new empty label;
- `___`, which continues the widget to its left;
- `I`, which continues the widget above it.

The `Gui` constructor does four things, and this project models all of them
as pure Dafny over abstract widget identities:

- It checks the arguments with `_layer_check`.
- It resolves the markers into the intermediate table `_step1`.
- It adds each distinct widget to the grid layout once. A widget goes at its
  first cell in row-major order, with a row span and a column span counted
  from that cell.
- It registers each widget under its normalized text, adding `_` to the text
  until the name is free.

`__getattr__` then finds a widget by alias or by name.

Modules, one per concern:

- `Wrappers` holds `Result`, `Outcome` and `Option`.
- `Errors` holds the Python exceptions that can be raised.
- `Names` models `_normalize`.
- `Layer` models `_layer_check`.
- `Grid` holds cells, identities and marker resolution.
- `Layout` holds span counting and placement.
- `Registry` models name de-duplication.
- `Gui` models the constructor and `__getattr__`.
- `Examples` works through small tables.

The model's conventions:

- Widgets are `nat` ids. A widget's text is a parameter `textOf`, and
  whether it has a `text()` method at all is a parameter `hasText`.
- The label made for a `_` at (i, j) is `Fresh(i, j)`. It is a new object,
  different from every caller widget and from every other label.
- Python's `str.isalnum` is a parameter `isAlnum: char -> bool`, so the
  results about names hold for any classification of characters.
- An `addWidget(element, row, col, rowspan, colspan)` call is a `Placement`
  record. A layout is a sequence of these records.
- `Grid.Resolve` starts `_step1` as a table of `None`. Its loop invariant
  (`Grid.FilledUpTo`) says that the cells before the cursor hold their
  resolved widget and all other cells still hold `None`. So each cell is
  written exactly once, in row-major order.

Facts about the code that the model keeps:

- Spans count every cell in the anchor's column (or row) that holds the
  widget, at or after the anchor, adjacent or not
  (`Examples.NonAdjacent`).
- In `[[X, Y], [I, Y]]` the `I` copies X, so X spans two rows
  (`Examples.Column`).
- A `___` in column 0 or an `I` in row 0 raises nothing at that point in the
  code. Marker resolution excludes such tables outright: `Grid.Resolvable`
  includes `Grid.Anchored`. `Gui.New` asks for anchored markers
  (`Gui.MarkersAnchored`) only of tables that pass the layer check, so a
  malformed table with a misplaced marker still gets the layer check's error.
- Malformed tables raise `ValueError`: "Row lengths differ", or "Arguments
  are not lists (or iterables)". The docstring of `_layer_check` says
  `TypeError` for differing lengths, but the code raises `ValueError`. An
  empty argument tuple raises `IndexError` at `lists[0]`. A first argument
  without a length raises `TypeError` from `len`.
- The element check accepts any `QWidget`, but registration calls
  `element.text()`. A placed widget without `text()` (a `QSlider`, say)
  makes the constructor raise `AttributeError`. Whether a caller's widget has
  `text()` is a parameter `hasText`.

## Model

| member | source | states |
|---|---|---|
| Names.Normalize | guietta/guietta.py:41-42 | every character of the result is alphanumeric or `_`, and the result is no longer than the input |
| Names.NormalizeEmbeds | guietta/guietta.py:41-42 | the result is an order-preserving subsequence of the input (a strictly increasing index map exists) that keeps every allowed position of the input, so it drops exactly the disallowed characters |
| Names.NormalizeFixes | guietta/guietta.py:41-42 | normalization leaves a string unchanged if and only if all its characters are allowed |
| Names.NormalizeIdempotent | guietta/guietta.py:41-42 | normalizing twice equals normalizing once |
| Layer.LayerCheck | guietta/guietta.py:73-82 | passes exactly on well-formed layers (a non-empty tuple of lists, each as long as the first, every element valid or a marker); otherwise raises what the first failing check raises: IndexError on no arguments, TypeError when the first has no length, ValueError for a non-list row or a length mismatch, TypeError(errstr) for a bad element |
| Grid.Origin | guietta/guietta.py:114-119 | a chain of `___`/`I` markers leads back to a widget or blank cell at or before the starting cell, and the starting cell resolves to that cell's identity |
| Grid.Resolve | guietta/guietta.py:102-121 | `_step1` has the input's shape; a widget cell holds that widget, a `_` holds the new label made for that cell, a `___` holds the resolved cell to its left and an `I` the resolved cell above; the table equals the reference table `Resolved` |
| Grid.ResolvesUnique | guietta/guietta.py:108-121 | any table that satisfies the per-cell rules is the resolved table, so those rules determine `_step1` completely |
| Grid.SameIdentity | guietta/guietta.py:112-121 | two cells hold the same widget exactly when their marker chains reach the same cell or two cells that hold the same caller widget |
| Grid.FreshLabel | guietta/guietta.py:112-113 | the label made for a `_` appears only in cells whose marker chain ends at that `_`, so two blanks are never merged |
| Grid.MarkerFreeUnchanged | guietta/guietta.py:108-121 | a table with only widgets resolves to those widgets, cell by cell |
| Layout.CountDown | guietta/guietta.py:132-136 | the rowspan loop returns the number of rows at or below the anchor whose cell in the anchor's column holds the element |
| Layout.CountRight | guietta/guietta.py:137-139 | the colspan loop returns the number of columns at or right of the anchor in its row that hold the element |
| Layout.Place | guietta/guietta.py:126-141 | the placements form the layout of the resolved table: each is at a widget's first row-major cell, with the counted spans, in row-major order of anchors, and every first occurrence is placed |
| Layout.AnchorsAreFirsts | guietta/guietta.py:127-131 | a position is an anchor of the layout if and only if it is the first row-major occurrence of its widget |
| Layout.PlacedOnce | guietta/guietta.py:126-146 | no widget is placed twice |
| Layout.FirstOccurrence | guietta/guietta.py:127-131 | every cell's widget has a first occurrence at or before that cell |
| Layout.EveryWidgetPlaced | guietta/guietta.py:126-146 | every widget of the resolved table is placed |
| Layout.SpanBounds | guietta/guietta.py:132-139 | a placement's rowspan is between 1 and the rows from its anchor to the bottom; its colspan is between 1 and the columns from its anchor to the row's end |
| Layout.CountInColumnIsCardinality | guietta/guietta.py:134-136 | the rowspan count equals the size of the set of rows at or below the anchor whose cell in the column holds the widget, adjacent or not |
| Layout.CountInRowIsCardinality | guietta/guietta.py:137-139 | the colspan count equals the size of the set of columns at or right of the anchor that hold the widget, adjacent or not |
| Layout.LayoutUnique | guietta/guietta.py:126-146 | a resolved table has exactly one layout, so the placement loop's output is determined by the table |
| Registry.FreshName | guietta/guietta.py:143-144 | the registered name is the text followed by the fewest `_` that make it absent from the registry: it is not a key, and every shorter extension is |
| Registry.Register | guietta/guietta.py:142-145 | registration adds exactly one key, the fresh name, mapped to the widget, and leaves every existing entry unchanged |
| Registry.RegisterAll | guietta/guietta.py:142-146 | registering widgets in order adds one key per widget and leaves every existing entry unchanged |
| Registry.RegisterAllNew | guietta/guietta.py:142-145 | every key that the registrations add maps to one of the registered widgets |
| Registry.RegisterAllFinds | guietta/guietta.py:142-145 | every registered widget is stored under some key |
| Registry.RegisterAllInjective | guietta/guietta.py:142-146 | registering distinct widgets, none already present, keeps every widget under exactly one name |
| Gui.New | guietta/guietta.py:88-146 | the constructor succeeds if and only if the layer check passes and every caller widget in the table has `text()`; on a failing layer check it raises exactly what the check raises, and otherwise a widget without `text()` raises AttributeError; on success it places the layout of the resolved table and registers each placed widget under its default name, with the registry injective and one entry per placement, and with no aliases |
| Gui.TextAtPlacement | guietta/guietta.py:126-142 | the `element.text()` call made at every placement succeeds for all placements if and only if every caller widget in the table has `text()`, since every widget is placed and every placed widget comes from a cell of the table |
| Gui.GetAttr | guietta/guietta.py:193-203 | an alias is replaced by its target once; the lookup returns the widget registered under the resulting name, or raises AttributeError if there is none |
| Gui.EveryWidgetReachable | guietta/guietta.py:142-145 | for every widget of the table there is a name for which `__getattr__`, called directly, returns that widget |
| Gui.NamesAreUnique | guietta/guietta.py:142-145 | in the constructed object, two different names never give the same widget |
| Gui.AliasOneLevel | guietta/guietta.py:196-200 | an alias of an alias is followed one step only |
| Examples.SingleCell | guietta/guietta.py:108-146 | `[[X]]` gives one placement at (0, 0), span (1, 1) |
| Examples.Block | guietta/guietta.py:108-146 | `[[X, ___], [X, ___]]` gives one placement at (0, 0), span (2, 2) |
| Examples.Column | guietta/guietta.py:108-146 | `[[X, Y], [I, Y]]` gives X at (0, 0) and Y at (0, 1), both with span (2, 1) |
| Examples.NonAdjacent | guietta/guietta.py:126-146 | `[[X, Y, X]]` gives X a colspan of 2 across the Y between its cells |
| Examples.TwoBlanks | guietta/guietta.py:112-113 | `[[_, _]]` gives two different labels, each one cell wide |
| Examples.RaggedRows | guietta/guietta.py:78-79 | rows of different lengths raise ValueError('Row lengths differ') and nothing else |
| Examples.NotAWidget | guietta/guietta.py:80-82 | an element that is neither a widget nor a marker raises TypeError('Elements are not widgets') |
| Examples.StringRow | guietta/guietta.py:75-76 | a string among the rows raises ValueError('Arguments are not lists (or iterables)') |

## Left out

- The Qt application and widget classes (guietta/guietta.py:6-21) are foreign library objects. Widgets are `nat` ids with text from a parameter.
- `QGridLayout.addWidget` is not simulated. The model records each call as a `Placement`.
- `QGridLayout.itemAtPosition`, used by `__getitem__` (205-207), is Qt's own lookup and is not modelled.
- `events()` (148-167) connects Qt signals to callables through `functools.partial` and bound-method detection. These are foreign calls, so it is not modelled. `_default_signals` and `_bound_method` go with it.
- `names()` (169-183) needs Qt's position lookup and prints a debug line. The alias table it fills is a parameter of `Gui.GetAttr`, and the constructor leaves it empty.
- `colors`, `groups` and `all` are empty stubs.
- `window()` and `run()` create a window and run the event loop. They are UI and are not modelled.
- `import_into` (218-226) sets attributes on arbitrary Python objects and can fail part-way. It is not modelled.
- Grid.Anchored: a `___` in column 0 or an `I` in row 0 of a table that passes the layer check is excluded by a precondition. The code raises nothing at that point: Python's index -1 reads a cell that is still `None`. The constructor then fails later, at guietta/guietta.py:141-142, where `None` is passed to `addWidget` and `None.text()` is called.
- Gui.EveryWidgetReachable: Python calls `__getattr__` only after ordinary attribute lookup fails. A widget whose name is also an attribute of `Gui` (`run`, `window`, `names`, `events`, `all`, `_layout`, `_widgets` and the like) is stored and returned by `__getattr__`, but `gui.run` gives the method, not the widget. The model has no notion of `Gui`'s own attributes.
- Layer.LayerCheck: an argument is a list, a string or a value without a length. An iterable without a length, such as a generator, is not modelled. The TypeError from `len` has a fixed message here. The interpreter's message names the type.
- Names.Normalize: Unicode `isalnum` is a parameter, not a character table.
- Gui.New: texts are read and widgets registered after all placements, in placement order. The code reads the text and registers each widget right after adding it, but `addWidget` does not touch the registry, so the names are the same. When a widget has no `text()`, the code has already added the widgets before it to the Qt layout; the model returns only the AttributeError, since the half-built object is not kept. The interpreter's AttributeError there carries a message naming the widget's class; the model's `AttributeError` has no message, the same value as the message-less `raise AttributeError` of `__getattr__`.
- The element check `element not in _specials` compares by equality. Here the marker predicate `Grid.IsSpecial` stands in for that comparison.
