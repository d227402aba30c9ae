# Square pattern printer, in Dafny

This project models the pattern printer in `control-flow/pattern_drawing.py`.
The script reads a size and then runs two nested loops. The outer `while`
loop counts rows from 0 up to `size`. The inner `for` loop prints `size`
asterisks, one `print("*", end="")` at a time. A bare `print()` then ends the row.

The model is the module `PatternDrawing` in `pattern_drawing.dfy`:

- `DrawPattern(size)` is the script's two loops as a Dafny method. The
  `row` counter and the inner `col` loop are kept as they are. Standard
  output becomes a local `out: seq<char>`: `print("*", end="")` appends `'*'`
  and `print()` appends `'\n'`. Its loop invariants prove that it returns
  exactly `Pattern(size)`.
- `Stars`, `Row`, `Repeat` and `Pattern` are the pure description of that
  output: `size` copies of a row, where a row is `size` asterisks and a line break.
- `NextBreak`, `Lines`, `Trailing` and `Unlines` read a character stream back
  as newline-terminated lines plus any text after the last break. These
  definitions are independent of the printer. The lemmas use them to state
  "exactly `size` lines of `size` asterisks".

The source's `size` is a Python `int`, which has no bound. The model's `int`
has none either, so no wrap-around is involved. The script prints a square:
`size` rows of `size` asterisks. The model follows the code.

## Model

| member | source | states |
|---|---|---|
| `PatternDrawing.DrawPattern` | control-flow/pattern_drawing.py:7-15 | The loops write exactly `Pattern(size)`, and nothing at all when `size <= 0`. The outer-loop invariant says that after `row` passes the output is `row` copies of the row string. The inner-loop invariant says that after `col` passes the current row has `col` asterisks. The loop ends because `size - row` goes down on every pass. |
| `PatternDrawing.RepeatAppend` | control-flow/pattern_drawing.py:10-15 | One more pass of the outer loop appends one more row: `row` copies followed by a row equal `row + 1` copies. |
| `PatternDrawing.PatternLines` | control-flow/pattern_drawing.py:10-15 | For `size >= 0`, reading the output as lines gives exactly `size` lines, each exactly `size` asterisks. Nothing follows the last line break, and re-joining the lines gives back the output. |
| `PatternDrawing.PatternRow` | control-flow/pattern_drawing.py:12-14 | For every row index `k < size`, the `k`-th block of `size + 1` characters is `size` asterisks and then a line break. Every row is the same, so nothing printed depends on `row`. |
| `PatternDrawing.PatternLength` | control-flow/pattern_drawing.py:12-14 | For `size >= 0`, the output is `size * (size + 1)` characters long. |
| `PatternDrawing.PatternEmpty` | control-flow/pattern_drawing.py:10-12 | The output is empty exactly when `size <= 0`. In that case the outer guard fails at once. |
| `PatternDrawing.PatternAlphabet` | control-flow/pattern_drawing.py:13-14 | For every size, each output character is `'*'` or `'\n'`. |
| `PatternDrawing.PatternOfThree` | control-flow/pattern_drawing.py:10-15 | Size 3 prints `"***\n***\n***\n"`. |
| `PatternDrawing.LinesRoundTrip` | control-flow/pattern_drawing.py:13-14 | The line reading used above loses nothing. For any stream, the lines each re-terminated by a break, followed by the text after the last break, give back the stream. |
| `PatternDrawing.LinesHaveNoBreaks` | control-flow/pattern_drawing.py:13-14 | For any stream, no line it is split into contains a line break, and neither does the text after the last break. |

## Left out

- The prompt and the `int(input(...))` parse at control-flow/pattern_drawing.py:4 are console I/O that relies on Python's integer parsing. `size` is a parameter of `DrawPattern` instead. The fatal error on non-numeric input is not modelled.
- Real standard output is not modelled. Each `print` is an append to the returned character sequence.
- `main.py` (the item service) is not part of this model. Its FastAPI routes, async SQLAlchemy engine and sessions, startup/shutdown hook, and ORM and pydantic record classes are framework wiring. Their behaviour is carried out by library code that is not available.
