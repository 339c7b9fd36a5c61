# Guest-list synchronisation: a verified model of the record builder

The script reads the guest list of a wedding from a spreadsheet. Each row holds
a name, a domicile, a priority, an invitee count, a gender and an optional
prefix. The script turns every row into an `Invitation` record keyed by the
slug of the guest's name. It can also write each guest's personal invitation
link back into a column of the sheet. Finally it collects the records into a
map from slug to record and publishes that map to a document store.

This project models that core in Dafny:

- `strconv.dfy` (module `Strconv`) models Go's `strconv.Atoi` and `strconv.Itoa`.
  They are stated against a plain definition of decimal text: an optional sign,
  then digits. `Atoi` keeps the shape of Go's fast path: strip one sign, then a
  left-to-right loop that accumulates the digits. It returns 0 and a failure
  flag on a syntax error, as Go does.
- `invitations.dfy` (module `Invitations`) holds the `Invitation` record and the
  rule that turns one row into a record (`InvitationOf`, with `PriorityOf` for
  the priority cell). It also holds the link and cell address that
  `regenerateInvivationLink` builds (`CellAddress`, `InvitationLink`,
  `RegenerateLink`) and the guest map, specified as insertion in row order
  (`MapOf`).
- `guest_sync.dfy` (module `GuestSync`) holds the two loops of `main`.
  `BuildInvitations` is the row loop and `AssembleMap` is the map fold. `Sync`
  chains them and reads the REGENERATE_LINK flag.
- `scenarios.dfy` (module `Scenarios`) holds concrete runs stated as lemmas.

The slug function (`slug.Make` of the gosimple/slug library) is a parameter
`slug: string -> string`. Nothing is assumed about it beyond being a function.
The environment variables REGENERATE_LINK, INVITATION_BASE_URL and
LINK_SHEET_COL are string parameters. The sheet updates the loop would send
come back as a list of `LinkWrite(cell, link)` values, in the order they are
issued.

A row with fewer than five cells makes the Go program panic with an index out
of range. This happens before the row is appended and before its link is
written. The model does not exclude such rows by a precondition. Instead,
`BuildInvitations` stops at the first short row and reports it, and `Sync`
returns `Panicked(row)`. The link writes already issued for earlier rows are
still returned.

Priorities may be negative. The code keeps whatever Atoi reads, so a cell
`-4` gives priority -4 (`Scenarios.PriorityExamples`).

## Model

| member | source | states |
|---|---|---|
| `Strconv.Atoi` | main.go:68 | succeeds exactly on an optionally signed, non-empty digit string and then returns its decimal value; otherwise returns 0 with failure |
| `Strconv.NatDigits` | main.go:22 | the decimal text of a number is non-empty, all digits, and starts with 0 only for zero |
| `Strconv.NatDigitsValue` | main.go:22 | the digits Itoa writes for n have the value n |
| `Strconv.ItoaRoundTrip` | main.go:22 | Itoa's text is canonical decimal text, and Atoi's reading of it is the original number |
| `Strconv.ItoaInjective` | main.go:22 | different numbers are written as different text |
| `Strconv.DigitsRoundTrip` | main.go:22 | a digit string without a leading zero is exactly what Itoa writes for its value |
| `Strconv.CanonicalRoundTrip` | main.go:22 | any canonical decimal text is what Itoa writes for the value Atoi reads from it |
| `Invitations.InvitationOfRowOf` | main.go:67-86 | a record whose key is the slug of its name is rebuilt exactly from its six-cell row: every field is copied from its column |
| `Invitations.RowOfInvitationOf` | main.go:67-86 | a six-cell row with a canonical priority is recovered exactly from the record built from it, so no cell is lost |
| `Invitations.MissingPrefixIsEmpty` | main.go:74-77 | a five-cell row gives the same record as the row with an empty prefix cell appended |
| `Invitations.ExtraCellsIgnored` | main.go:74-86 | cells after the prefix column do not affect the record |
| `Invitations.CellAddress` | main.go:21-28 | the link cell address starts with the link column, and the rest is canonical decimal text whose value is the sheet row |
| `Invitations.InvitationLink` | main.go:25 | the link is the base URL, one slash, then exactly the key |
| `Invitations.CellAddressInjective` | main.go:21-28 | different sheet rows get different cell addresses in the same column |
| `Invitations.InvitationLinkInjective` | main.go:25 | different keys get different links under the same base URL |
| `Invitations.LinkCellsDistinct` | main.go:67-91 | no two link updates of one run target the same cell |
| `Invitations.MapOfKeys` | main.go:94-97 | the map's key set is exactly the set of record keys, and each entry is stored under its own key |
| `Invitations.MapOfLastWriterWins` | main.go:95-96 | a record whose key no later record shares is the value stored under that key |
| `Invitations.MapOfValues` | main.go:94-97 | every value in the map is one of the records |
| `Invitations.MapOfSize` | main.go:94-97 | the map has at most one entry per row, and exactly one per row if and only if no two rows share a key |
| `GuestSync.BuildInvitations` | main.go:63-92 | completes exactly when every row has at least five cells; otherwise stops at the first short row; record i is built from row i; with the flag set, the link writes are one per built record, for sheet row i + 2; with it unset, there are none |
| `GuestSync.AssembleMap` | main.go:94-97 | the map the fold builds equals insertion in row order; its key set is the set of record keys; each entry sits under its own key; it has at most as many entries as records |
| `GuestSync.Sync` | main.go:63-97 | publishes the map of the records of all rows exactly when every row is well-shaped, and otherwise names the first short row; link writes exist only when REGENERATE_LINK is "1", one per processed row, with the link of that row's name slug |
| `Scenarios.PriorityExamples` | main.go:68 | "3" gives 3, "+12" gives 12, "-4" gives -4; "", "-", "abc" and " 3" give 0 |
| `Scenarios.LinkExample` | main.go:21-28 | data row 1 with key jane-doe writes https://x.test/jane-doe into cell G3 |
| `Scenarios.SingleGuest` | main.go:64-97 | the row Jane Doe / Jakarta / 3 / 2 / F / "" yields the one-entry map under jane-doe with priority 3 |
| `Scenarios.SameSlugLaterRowWins` | main.go:94-97 | two rows whose names share a slug leave one entry, and it is the later row's record |

These functions are the definitions the members above are stated against.
Their contracts only restate their bodies, or they have none:
- `Invitations.InvitationOf` and `Invitations.PriorityOf` model main.go:68-86.
- `Strconv.Itoa` models main.go:22.
- `Invitations.RegenerateLink` models main.go:21-28.
- `Invitations.MapOf` models main.go:94-97.
- `Invitations.InvitationsOf` models main.go:64-92. It gives the records of well-shaped rows, one per row, in order.
- `Invitations.LinkWritesOf` models main.go:71 and main.go:88-91. It gives one update per record, record i going to sheet row i + 2.

## Left out

- Reading the sheet (`Values.Get`) and loading the environment file are not modelled. The rows and the environment values are inputs.
- The per-row `Values.Update` calls are not modelled as network calls. They are the returned `LinkWrite` list. Their results are ignored in the source, and the model ignores them too.
- Printing each link is not modelled.
- The two document-store writes are not modelled. These are the guest map written to `invitation/guest` and the details JSON file written to `invitation/digital`. Opening and parsing the details file is not modelled either. `Sync` returns the map that would be written.
- `modules/firebase.go` and `modules/sheet.go` are not part of this model. They only create the two SDK clients.
- The internals of `slug.Make` are not part of this model. The slug is an arbitrary function, so no idempotence or character mapping is claimed.
- `Strconv.Atoi` does not model Go's out-of-range behaviour. Go returns a clamped value with a range error, which the source would keep as the priority. The model uses unbounded integers.
- The `.(string)` type assertions are not modelled. Cells are modelled as text, so the panics on non-text cells are out of scope.
- The `sync.WaitGroup` is not modelled. `Add` is called once per link write, but `Done` and `Wait` never are, and the writes run synchronously.
- The exit paths through `log.Fatal` and `os.Exit` are not modelled, apart from the short-row panic, which `Sync` reports.
