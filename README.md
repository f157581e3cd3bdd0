# turnipp: replication-lag arithmetic

turnipp checks PostgreSQL 9 streaming replication. `Checker.check` asks the
master for `pg_current_xlog_location()` and the replica for
`pg_last_xlog_replay_location()`. Both answers are xlog locations written
`"<hex log id>/<hex offset>"`. `Checker.__in_bytes` turns each one into a
number, `0xFFFFFFFF * logid + offset`. `check` returns the difference
floor-divided by 1024 (Python 2 `/` on integers), or `-1` when anything
raises.

This project models that arithmetic as pure functions and proves its
properties:

- `Wrappers` (wrappers.dfy): `Option`. `None` stands for a raised exception.
- `Hex` (hex.dfy): the hexadecimal digit fold `HexValue`, and `ToHex`, the
  `%X` rendering the server uses for the two halves of a location.
- `PyText` (pytext.dfy): Python's `str.split(sep)` with a one-character
  separator, and C-locale whitespace.
- `PyInt` (pyint.dfy): Python 2.7's `int(s, 16)` on a byte string, as
  `ParseHexInt`, which gives `None` where Python raises `ValueError`.
  - It is a position-based scan: leading whitespace, an optional `+`/`-`,
    whitespace, an optional `0x`/`0X` that a digit follows, at least one
    digit, trailing whitespace.
  - It is characterised by a grammar datatype `HexLiteral`.
  - One lemma shows that every string of the grammar is accepted with its
    value; another that only such strings are accepted.
- `Turnipp` (turnipp.dfy): `__in_bytes` as `InBytes` and `check` as `Check`.
  - `Magnitude(logid, offset)` is the expression `0xFFFFFFFF * logid + offset`
    of turnipp.py:79.
  - `Position(fetched)` is one side's fetch followed by `__in_bytes`
    (turnipp.py:64 and 70). Each side's database fetch is an
    `Option<string>` input.

## Model

| member | source | states |
|---|---|---|
| Turnipp.Magnitude | turnipp.py:79 | no contract of its own: the expression `0xFFFFFFFF * logid + offset`, characterised by MagnitudeOrder and MagnitudeCarry |
| Turnipp.Position | turnipp.py:64 | no contract of its own: one side's fetch, `None` on failure, followed by `__in_bytes`; Check's contract and CheckFailedAmbiguous state the result in terms of it |
| Turnipp.InBytes | turnipp.py:77-79 | an accepted location holds exactly one `/`, as the two-way unpacking of `split('/')` requires |
| Turnipp.InBytesOfHalves | turnipp.py:78-79 | for halves without `/`, the result is `0xFFFFFFFF * logid + offset` when `int(_, 16)` accepts both halves, and a failure otherwise |
| Turnipp.InBytesPlainHex | turnipp.py:78-79 | for non-empty hex-digit strings A and B, `"A/B"` gives exactly `0xFFFFFFFF * hex(A) + hex(B)` |
| Turnipp.InBytesAccepts | turnipp.py:78-79 | any two halves in the grammar of `int(_, 16)` (whitespace, sign, `0x`), joined by `/`, give the scaled sum of their values |
| Turnipp.InBytesAcceptsOnly | turnipp.py:78-79 | every accepted location is two such halves joined by `/`, and its value is their scaled sum |
| Turnipp.InBytesOfServerText | turnipp.py:63-64 | a location as the server prints it (`%X/%X` of log id and offset) reads back as `0xFFFFFFFF * logid + offset` |
| Turnipp.Check | turnipp.py:54-75 | a failure on either side gives -1; otherwise the result `lag` satisfies `1024*lag <= m - s < 1024*lag + 1024`, i.e. floor division |
| Turnipp.CheckFailsOnSlashCount | turnipp.py:73-78 | a location with no `/` or with several makes `check` return -1, on either side and whatever the other side gives |
| Turnipp.CheckFailsOnUnreadableHalf | turnipp.py:73-79 | an empty half, or one holding a character outside the grammar of `int(_, 16)`, makes `__in_bytes` fail and `check` return -1 on either side |
| Turnipp.InBytesMonotoneInOffset | turnipp.py:79 | with the same log id, a larger offset gives a strictly larger result |
| Turnipp.InBytesMonotoneInLogId | turnipp.py:79 | with the same offset, a larger log id gives a strictly larger result |
| Turnipp.InBytesNonNegative | turnipp.py:79 | plain-hex locations are accepted with a result of at least 0 |
| Turnipp.MagnitudeOrder | turnipp.py:79 | for offsets below 0xFFFFFFFF, the scaled sum orders locations as (log id, offset) pairs, and distinct pairs never collide |
| Turnipp.ServerLocationsOrdered | turnipp.py:79 | locations printed by the server compare, after `__in_bytes`, as their (log id, offset) pairs when offsets stay below 0xFFFFFFFF |
| Turnipp.CollisionAcrossLogIds | turnipp.py:75-79 | for every log id L, `L/FFFFFFFF` and `L+1/0` read as the same number, and `check` reports 0 between them |
| Turnipp.MagnitudeCarry | turnipp.py:79 | offset 0xFFFFFFFF of one log id weighs as much as offset 0 of the next |
| Turnipp.CheckSamePosition | turnipp.py:75 | two sides that read as the same number give 0 |
| Turnipp.CheckSameLocation | turnipp.py:75 | the same accepted location on both sides gives 0 |
| Turnipp.CheckFailedAmbiguous | turnipp.py:73-75 | `check` returns -1 exactly when a side fails or the replica is 1 to 1024 bytes ahead of the master |
| Turnipp.ExampleSameLogId | turnipp.py:75-79 | `1/A0` against `1/50` reads as 0xFFFFFFFF+0xA0 and 0xFFFFFFFF+0x50, and gives 0 |
| Turnipp.ExampleCollision | turnipp.py:75-79 | `2/0` and `1/FFFFFFFF` both read as 8589934590, so `check` gives 0 |
| Turnipp.ExampleFailures | turnipp.py:59-78 | `abc` fails on the master side, and a failed fetch on either side gives -1 |
| Turnipp.NoSlashInLiteral | turnipp.py:78-79 | no string accepted by `int(_, 16)` holds a `/` |
| PyText.Split | turnipp.py:78 | `split` yields one more part than there are separators, none of them holding the separator, and joining them gives back the input |
| PyText.SplitJoin | turnipp.py:78 | splitting a join of separator-free parts gives back the parts |
| PyText.SplitAfterPiece | turnipp.py:78 | splitting a piece, the separator and a rest gives the piece followed by the split of the rest |
| PyText.SplitWithoutSeparator | turnipp.py:78 | a string without the separator splits into itself alone |
| PyInt.ParseHexInt | turnipp.py:79 | no contract of its own: `int(s, 16)`, characterised both ways by ParseHexIntAccepts and ParseHexIntOnlyLiterals |
| PyInt.ParseHexIntAccepts | turnipp.py:79 | every string of the `int(_, 16)` grammar is accepted with the signed value of its digits |
| PyInt.ParseHexIntOnlyLiterals | turnipp.py:79 | every accepted string is a string of the grammar, and its result is that literal's value |
| PyInt.ParseHexIntPlain | turnipp.py:79 | a non-empty hex-digit string reads as its hexadecimal value |
| PyInt.ParseHexIntNeedsDigit | turnipp.py:79 | an accepted string holds a hex digit, so an empty or all-whitespace string is rejected |
| PyInt.ParseHexIntRejectsForeignChar | turnipp.py:79 | a character other than a digit, whitespace, a sign or `x`/`X` makes the string rejected |
| PyInt.ParseHexIntUnsignedNonNegative | turnipp.py:79 | an accepted string without `-` has a value of at least 0 |
| PyInt.ScanHexInt | turnipp.py:79 | an accepted scan locates a non-empty run of hex digits inside the string |
| PyInt.ScanDigits | turnipp.py:79 | after the sign, an accepted scan keeps the sign and finds a non-empty run of digits at or after its start |
| PyInt.ScanLaidOut | turnipp.py:79 | a string laid out as the grammar says is scanned to its sign and its digit run |
| PyInt.ScanShape | turnipp.py:79 | every string the scan accepts is laid out as the grammar says, with the sign the scan reports |
| PyInt.Layout | turnipp.py:79 | the text of a literal is laid out at the positions of its parts, with its sign and digits there |
| PyInt.LaidOutChars | turnipp.py:79 | every character of a laid-out string is a digit, whitespace, a sign or `x`/`X` |
| PyInt.SkipSpace | turnipp.py:79 | the scan stops at the first non-whitespace character at or after the start |
| PyInt.SkipHexDigits | turnipp.py:79 | the scan stops at the first non-digit character at or after the start |
| Hex.HexValue | turnipp.py:79 | the value of n digits is a natural number below 16^n |
| Hex.HexValueAppend | turnipp.py:79 | appending a digit multiplies the value by 16 and adds the digit |
| Hex.ToHex | turnipp.py:63-64 | the upper-case `%X` rendering of n, without leading zeros, is hex digits whose value is n; a rendering of more than one digit is needed, since n is at least 16 to the power of its length minus one |
| Hex.ToHexShortest | turnipp.py:63-64 | no non-empty digit string with the same value is shorter than the `%X` rendering |
| Hex.Pow16Monotone | turnipp.py:79 | the bound 16^n on the value of n digits grows with n |
| Hex.DigitValue | turnipp.py:79 | a digit's value is below 16 |
| Hex.HexChar | turnipp.py:63-64 | the upper-case digit for a value below 16 is a hex digit with that value |

## Left out

- The psycopg2 calls (`connect`, `cursor`, `execute`, `fetchone`, `commit`, `close`, turnipp.py:60-72) are network I/O through a foreign library. Each side is only the text its query returns, or `None` for any exception on that side, including a NULL or missing row.
- Connection release is not modelled, and no claim is made that connections are released. The code opens both connections up front (turnipp.py:60-61).
  - On a failure on the master side, from its cursor to its commit, the code calls `close()` on neither connection.
  - The master connection is closed (turnipp.py:66) before the replica's query runs. On a failure on the replica side the code does not call `close()` on the replica connection.
  - On a failure in connecting to the replica the code does not call `close()` on the master connection.
  - A connection the code does not close stays open until its object is garbage-collected. In CPython that happens when `check` returns, since both connections are locals of `check`.
- The order of the two queries is not modelled. The result depends only on whether each side succeeds and on what it returns.
- The `Checker` constructor only stores the two connection strings (turnipp.py:46-52). They are inputs of the left-out I/O.
- The argparse command line and `print` (turnipp.py:81-90) are a thin shell without logic.
- The 32-bit ranges of log id and offset are not enforced, because the code never checks them. Only `MagnitudeOrder` and `ServerLocationsOrdered` assume offsets below 0xFFFFFFFF, which is what makes the ordering hold.
- Python `unicode` input is not modelled. The halves are byte strings, and an embedded NUL is rejected like any other character outside the grammar.
- ParseHexInt: applies the `int` grammar at every size. Python hands values above `LONG_MAX` to its `long` parser, whose grammar may differ; for example, it may reject whitespace after the sign. With a 64-bit C `long`, 32-bit halves never reach that size. With a 32-bit C `long` (32-bit builds, 64-bit Windows), every half from 0x80000000 up reaches it, so a half such as `- FFFFFFFF` may be read differently from the model.
- CheckFailsOnUnreadableHalf: a half whose only non-digit characters are whitespace, signs or `x`/`X` is not claimed to fail, because `int(_, 16)` accepts some of these. `ParseHexIntAccepts` and `ParseHexIntOnlyLiterals` state exactly which ones.
- InBytesMonotoneInOffset, InBytesMonotoneInLogId, InBytesNonNegative: stated for plain hexadecimal halves. With a `-` sign a half can be negative, and the general result is given by `InBytesAccepts`.
- The 0xFFFFFFFF multiplier is kept as written.
  - From PostgreSQL 9.3 on, a log id spans 2^32 bytes, and `CollisionAcrossLogIds` shows the consequence.
  - Up to 9.2, which this script targets (turnipp.py:41), a log id holds 255 segments of 16 MB, so offsets stay below 0xFF000000. There the server never prints offset `FFFFFFFF`, and the collision needs a 9.3 or later server.
