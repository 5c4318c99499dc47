# hextime, modelled in Dafny

hextime is a clock for a status bar. Every second it takes the Unix time as a
32-bit number of seconds, splits it into its four bytes (most significant
first) and writes each byte as two upper-case hex digits. Each pair sits in an
xmobar foreground-colour tag `<fc=#rrggbb>..</fc>` and the tags are separated
by single spaces. The formatting lives in `src/main.rs`. This model covers:

- the `Color` palette and its `u32` values, and a colour's `{:06x}` text;
- the `Fc` colour tag and the `Hex2` byte rendering;
- the two line formats `XmobarFmt` (tagged, palette Gray, Gray, Green,
  LightGray) and `TermFmt` (plain hex pairs);
- the two-byte line of `print_two`;
- the 64-to-32-bit narrowing in `seconds()`, with the stream of seconds it
  feeds to the printer.

Every writer has a reader. Each reader is proved to accept exactly the texts
its writer produces and to give back the writer's input. So each line
determines the timestamp it shows, and `print_two`'s line determines the low
16 bits. The writers also have proved bounds (lengths, digit alphabets, where
the spaces fall) and worked samples.

Modules, one per concern of `src/main.rs`:

- `Prelude`: `Option` and the integer widths `u8`, `u32`, `u64`.
- `Numerals`: digits in bases 2 to 16, the value of a numeral, unpadded and
  zero-padded rendering, and fixed-width and canonical parsing. These are
  the common ground of `{:06x}`, `{:02X}` and `{}`.
- `Colors`: `Color`, its RGB value, its six-digit text.
- `Tags`: `Hex2`, the decimal rendering of a byte, and `Fc`.
- `Spaced`: pieces joined by single spaces, as the format strings
  `"{} {} {} {}"` and `"{} {}"` lay them out, and the split that undoes it.
- `Lines`: `to_be_bytes`, `XmobarFmt`, `TermFmt` and `print_two`'s line.
- `Samples`: the lines for particular timestamps.
- `Clock`: the narrowing and the stream of seconds.

Three details of the code that a reader might expect otherwise:

- There is no space after the last tag of a line: the format string is
  `"{} {} {} {}"` (src/main.rs:66). `Samples.XmobarAtEpoch` states the
  epoch line that way.
- `print_two` passes the raw `u8` bytes to `Fc`, so they are written with
  `{}`, in decimal and without padding (src/main.rs:94).
  `Samples.PrintTwoSample` shows 0x0A0B written as `10` and `11`.
- `seconds()` is documented as yielding "distinct" seconds (src/main.rs:97),
  but the code does not filter repeats. `Clock.RepeatsPassThrough` shows two
  readings in the same second both passing through.

## Model

| member | source | states |
|---|---|---|
| Colors.Rgb | src/main.rs:23-36 | every colour's value fits in 24 bits, so `{:06x}` never needs more than six digits |
| Colors.RgbInjective | src/main.rs:23-36 | two colours have the same value exactly when they are the same colour |
| Colors.FromRgbIff | src/main.rs:23-36 | the table read backwards: a number names colour c exactly when it is c's value |
| Colors.ColorText | src/main.rs:38-43 | each colour's text is six lower-case hex digits |
| Colors.ColorTextIsPadded | src/main.rs:38-43 | a colour's text is its value as exactly six lower-case hex digits with leading zeros |
| Colors.ParseColorIff | src/main.rs:38-43 | six lower-case hex digits read back as colour c exactly when they are c's text |
| Numerals.Digit | src/main.rs:41 | the digit character for n reads back as n in the same case |
| Numerals.Digits | src/main.rs:94 | the unpadded rendering of x, as `{}` prints a `u8` in base 10, is at least one digit and every character is a digit of the base |
| Numerals.DigitsValue | src/main.rs:94 | the unpadded rendering of x reads back as x and has no leading zero |
| Numerals.Padded | src/main.rs:41 | zero-padded rendering keeps the value, has at least `width` digits, and has exactly `width` when x is below base^width |
| Numerals.ParseFixedIff | src/main.rs:41 | a fixed-width reader gives x exactly on the zero-padded rendering of x |
| Numerals.ParseCanonicalIff | src/main.rs:94 | an unpadded reader gives x exactly on the unpadded rendering of x |
| Numerals.DigitsLength | src/main.rs:94 | x has at most w+1 digits exactly when x is below base^(w+1) |
| Numerals.ValueInjective | src/main.rs:41 | two numerals of the same length with the same value are the same text |
| Tags.Hex2 | src/main.rs:53-58 | a byte is written as exactly two characters, each an upper-case hex digit |
| Tags.Hex2IsPadded | src/main.rs:53-58 | `Hex2(b)` is b zero-padded to two upper-case hex digits |
| Tags.ParseHex2Iff | src/main.rs:53-58 | two upper-case hex digits read back as b exactly when they are `Hex2(b)` |
| Tags.Decimal | src/main.rs:94 | a byte in decimal takes one to three characters |
| Tags.ParseDecimalIff | src/main.rs:94 | a decimal numeral reads back as byte b exactly when it is b's text without leading zeros |
| Tags.Fc | src/main.rs:45-51 | a tag is 17 characters longer than its content, and has a space only if its content has one |
| Tags.FcRoundTrip | src/main.rs:45-51 | a tag reads back as its colour and content |
| Tags.FcOnly | src/main.rs:45-51 | the tag reader accepts only texts of the form `<fc=#` colour `>` content `</fc>` |
| Tags.ParseFcIff | src/main.rs:45-51 | the tag reader gives (c, t) exactly on the tag for colour c around t |
| Spaced.JoinFour | src/main.rs:66 | four pieces are laid out in order with one space between neighbours and none at the ends |
| Spaced.SplitJoin | src/main.rs:66 | splitting at spaces recovers the pieces when none of them has a space |
| Spaced.JoinSplit | src/main.rs:66 | every text is the join of its space-separated pieces |
| Lines.BeBytes | src/main.rs:63 | `to_be_bytes` gives four bytes that recombine, most significant first, into x |
| Lines.BeBytesRoundTrip | src/main.rs:63 | splitting into bytes and recombining are inverse in both directions |
| Lines.LowBytes | src/main.rs:93 | the last two big-endian bytes are x modulo 2^16 |
| Lines.XmobarFmt | src/main.rs:60-73 | the status-bar line is always 79 characters |
| Lines.ParseHex2TagIff | src/main.rs:67-70 | a tag reads as byte b in a given colour exactly when it is that colour's tag around `Hex2(b)` |
| Lines.XmobarRoundTrip | src/main.rs:60-73 | every status-bar line reads back as its timestamp |
| Lines.XmobarOnly | src/main.rs:60-73 | the status-bar reader accepts only lines `XmobarFmt` writes, with palette Gray, Gray, Green, LightGray |
| Lines.ParseXmobarIff | src/main.rs:60-73 | a line reads as x exactly when it is x's status-bar line, so the line determines the timestamp |
| Lines.TermFmt | src/main.rs:75-81 | the plain line is 11 characters with spaces at positions 2, 5 and 8 |
| Lines.TermRoundTrip | src/main.rs:75-81 | the four pairs read big-endian give back x |
| Lines.TermOnly | src/main.rs:75-81 | the plain reader accepts only lines `TermFmt` writes |
| Lines.ParseTermIff | src/main.rs:75-81 | a plain line reads as x exactly when it is x's plain line |
| Lines.PrintTwo | src/main.rs:92-95 | the `print_two` line is 37 to 41 characters |
| Lines.PrintTwoLowBytes | src/main.rs:92-95 | timestamps that agree in their low 16 bits print the same line |
| Lines.ParseDecimalTagIff | src/main.rs:94 | a tag reads as byte b in a given colour exactly when it is that colour's tag around b in decimal |
| Lines.TwoRoundTrip | src/main.rs:92-95 | the `print_two` line reads back as x modulo 2^16 |
| Lines.TwoOnly | src/main.rs:92-95 | the `print_two` reader accepts only lines `print_two` writes: Cyan tag, space, LightGray tag |
| Lines.ParseTwoIff | src/main.rs:92-95 | a line reads as x modulo 2^16 exactly when it is x's `print_two` line |
| Samples.XmobarPieces | src/main.rs:64-71 | the status-bar line is Gray, Gray, Green and LightGray tags around the four bytes' `Hex2`, single spaces between |
| Samples.TermPieces | src/main.rs:79 | the plain line is the four bytes' `Hex2`, single spaces between |
| Samples.XmobarAtEpoch | src/main.rs:60-73 | at time 0 the status-bar line is `<fc=#999999>00</fc> <fc=#999999>00</fc> <fc=#00ff00>00</fc> <fc=#cccccc>00</fc>`, no trailing space |
| Samples.TermAtEpoch | src/main.rs:75-81 | at time 0 the plain line is `00 00 00 00` |
| Samples.TermAtMax | src/main.rs:75-81 | at 0xFFFFFFFF the plain line is `FF FF FF FF` |
| Samples.PrintTwoSample | src/main.rs:92-95 | `print_two` of 0x0A0B is `<fc=#00ffff>10</fc> <fc=#cccccc>11</fc>` |
| Clock.Narrow | src/main.rs:102 | narrowing succeeds exactly when the seconds are below 2^32 and then keeps them; otherwise it panics with `Time overflowed.: TryFromIntError(())`, the `expect` message followed by the error's Debug text |
| Clock.NarrowBoundary | src/main.rs:102 | 0xFFFFFFFF still fits and 2^32 panics: no wrap-around |
| Clock.Seconds | src/main.rs:98-103 | the stream hands on no more seconds than there are readings, and a panic carries the narrowing's panic message |
| Clock.SecondsPanicIff | src/main.rs:101-102 | a run of readings panics exactly when one of its successful readings needs more than 32 bits |
| Clock.SecondsArePresent | src/main.rs:99-102 | the seconds handed on are the successful readings in order: all of them when nothing overflows, otherwise exactly those before the first successful reading that overflows |
| Clock.EmitsBeforePanic | src/main.rs:98-106 | the iterator is lazy: a second that fits is handed on before a later reading panics |
| Clock.RepeatsPassThrough | src/main.rs:97-103 | two readings of the same second are both handed on; nothing deduplicates |

## Left out

- `main` (src/main.rs:105-111) is not modelled: its writing to stdout, flush, carriage return and one-second sleep are I/O and timing.
- `print_xbar` and `print_term` (src/main.rs:84-90) only print `XmobarFmt` and `TermFmt`, which are modelled; stdout is not.
- `SystemTime::now` and `duration_since(UNIX_EPOCH)` (src/main.rs:99-100) read the wall clock. `Clock.Seconds` takes the readings as its input: `None` for a reading before the epoch, which `filter_map` drops.
- Clock.Seconds: the iterator is unbounded and lazy. The model follows a finite run of readings up to the first panic.
- The `Formatter` machinery and its `fmt::Result` are not modelled. Writing to a formatter is taken to succeed.
- Tags.Fc: `Fc<T>` is generic over any `Display` content. The model takes the content as already-rendered text.
- Tags.Hex2: `Hex2<T>` is generic over any `UpperHex` type. Only `u8`, its one use, is modelled.
- `Red`, `Yellow` and `Blue` are never used by the formatting. Their values are kept as written, including `Yellow` = 0xff00ff, which is magenta rather than yellow.
