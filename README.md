# Either: the two-variant sum type of janki

This project models `src/either.rs` of janki, a spaced-repetition flashcard
program: the generic `Either<L, R>`, a tagged union holding exactly one of a
left value or a right value. The model is pure Dafny, as the Rust code is: a
`datatype Either<L, R> = Left(left: L) | Right(right: R)` and one function per
operation, with lemmas relating the operations to each other.

- `ToOptions` / `FromOptions` make precise the documented reading of an
  `Either` as a pair `(Option<L>, Option<R>)` with exactly one `Some`, and
  the two round-trip lemmas show the two forms are isomorphic.
- `LeftInto` and `RightInto` are the converting constructors `Either::l` and
  `Either::r`. Rust's `Into::into` is a function parameter `into`.
- `ToNormal` is `to_normal` on an `Either<T, T>`.
- `Clone` is the derived-by-hand `clone`. The payloads' own `clone` functions
  are parameters.
- `Display` and `Debug` are the two `fmt` implementations, rendered to a
  returned string. The payloads' own `Display`/`Debug` renderings are
  parameters. `DebugView` gives the struct that `Formatter::debug_struct`
  builds. `ParseDisplay` and `ParseDebug` read a rendering back. The lemmas
  about them show that a rendering names the active variant, carries that
  payload's text, and never confuses `Left` with `Right`.

All file references below are relative to the repository root.

## Model

| member | source | states |
|---|---|---|
| `Either.ToOptions` | src/either.rs:3-11 | the pair-of-options reading of an `Either` has exactly one `Some`, on the left exactly when the value is `Left` |
| `Either.FromOptions` | src/either.rs:3-11 | a pair with exactly one `Some` maps back to the `Either` whose variant matches the `Some` side |
| `Either.FromToOptions` | src/either.rs:3-11 | reading an `Either` as a pair of options and back gives the original value |
| `Either.ToFromOptions` | src/either.rs:3-11 | every pair with exactly one `Some` is the reading of the `Either` built from it |
| `Either.ToOptionsInjective` | src/either.rs:3-11 | two `Either`s with the same pair-of-options reading are equal |
| `Either.LeftInto` | src/either.rs:14-17 | `Either::l(a)` is always `Left`, never `Right`, and holds `into(a)`; its pair reading is `(Some(into(a)), None)` |
| `Either.RightInto` | src/either.rs:19-22 | `Either::r(b)` is always `Right`, never `Left`, and holds `into(b)`; its pair reading is `(None, Some(into(b)))` |
| `Either.IntoIdentity` | src/either.rs:14-22 | with the identity conversion the constructors store their argument unchanged |
| `Either.ToNormal` | src/either.rs:25-33 | the result is the carried payload, whichever side held it |
| `Either.ToNormalOfConstructors` | src/either.rs:14-33 | collapsing `Either::l(a)` or `Either::r(a)` yields `into(a)` on both sides |
| `Either.ToNormalAndSideDetermine` | src/either.rs:28-33 | the side and the collapsed payload together determine the value |
| `Either.Clone` | src/either.rs:56-63 | the clone is `Left` exactly when the original is, and holds the payload's own clone |
| `Either.CloneOfFaithfulClones` | src/either.rs:56-63 | when the payloads' clones equal the payloads, the clone equals the original |
| `Either.CloneKeepsSide` | src/either.rs:56-63 | cloning keeps the `Some` of the pair reading on the same side, with exactly one `Some` |
| `Either.ToNormalOfClone` | src/either.rs:28-63 | collapsing a clone equals cloning the collapsed payload |
| `Either.Display` | src/either.rs:46-53 | the display text starts with "Either on ", followed by the active variant's name, ": " and that payload's display |
| `Either.ParseDisplayOfDisplay` | src/either.rs:46-53 | the variant name and the payload's display can be read back from the display text |
| `Either.DisplayDeterminesVariant` | src/either.rs:46-53 | equal display texts come from the same variant with equally displayed payloads |
| `Either.DebugView` | src/either.rs:36-45 | the debug struct is named "Either" and has exactly one field, named "Left" or "Right" after the active variant and holding that payload's debug form |
| `Either.Debug` | src/either.rs:36-45 | the debug text is `Either { Left: <payload> }` or `Either { Right: <payload> }` for the active variant |
| `Either.ParseDebugOfDebug` | src/either.rs:36-45 | the field name and the payload's debug form can be read back from the debug text |
| `Either.DebugDeterminesVariant` | src/either.rs:36-45 | equal debug texts come from the same variant with equal payload debug forms |

## Left out

- The scheduling engine (`AnkiGame`, `Fact`, `GiveFacts`, `default_sag`) that the front end imports: `game.rs` and `item.rs` are not part of this model.
- src/egui/janki_app.rs: the egui/eframe front end (layout, clicks, text editing, CSV import and export, logging, the persistence hook) is UI and I/O glue over that engine.
- src/storage.rs: the `Storage` trait only declares `read_db` and `write_db` and gives `exit_application` an empty default body. It holds no behaviour to model.
- `Into::into`, the payloads' `clone`, and the payloads' `Display`/`Debug` output are code this model cannot see. They are function parameters, so each property holds for every choice of them.
- Formatter errors: `fmt::Result` failures raised by the writer and passed on by `?` are not modelled. Each rendering is a returned string.
- `Either.Debug`: models only the single-line `{:?}` layout of `debug_struct`. The multi-line `{:#?}` layout is not modelled.
- Ownership: `to_normal` consumes its argument and `clone` borrows it. Dafny values are immutable, so move and borrow semantics do not appear.
