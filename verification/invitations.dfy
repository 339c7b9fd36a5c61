/**
 * The guest records of the wedding-invitation script: how one spreadsheet row
 * becomes an `Invitation`, how the invitation link and the address of its
 * link cell are written, and the guest map keyed by slug.
 *
 * The slug function (`slug.Make` of the gosimple/slug library) is not part of
 * this model; it is passed around as an arbitrary total function `slug`.
 */
module Invitations {
  import opened Strconv

  /** A spreadsheet row: its cells, left to right, as text. */
  type Row = seq<string>

  datatype Invitation = Invitation(
    name: string,
    domicile: string,
    priority: int,
    invitee: string,
    gender: string,
    prefix: string,
    key: string
  )

  /** Columns 0 to 4 are indexed without a length check; column 5 is optional. */
  const RequiredCells := 5
  const PrefixColumn := 5

  /** The first spreadsheet row holds the headers, and rows count from 1. */
  const FirstDataSheetRow := 2

  predicate WellShaped(row: Row) {
    |row| >= RequiredCells
  }

  /** The priority cell as Atoi reads it, with its error discarded. */
  function PriorityOf(cell: string): int {
    if IsDecimal(cell) then DecimalValue(cell) else 0
  }

  /** The record one well-shaped row yields: fields copied by position. */
  function InvitationOf(row: Row, slug: string -> string): Invitation
    requires WellShaped(row)
  {
    Invitation(
      name := row[0],
      domicile := row[1],
      priority := PriorityOf(row[2]),
      invitee := row[3],
      gender := row[4],
      prefix := if |row| > PrefixColumn then row[PrefixColumn] else "",
      key := slug(row[0]))
  }

  /** The six-cell row that describes an invitation, in the sheet's column layout. */
  function RowOf(inv: Invitation): (row: Row)
    ensures |row| == PrefixColumn + 1
  {
    [inv.name, inv.domicile, Itoa(inv.priority), inv.invitee, inv.gender, inv.prefix]
  }

  /** A record whose key is the slug of its name is rebuilt exactly from its row. */
  lemma InvitationOfRowOf(inv: Invitation, slug: string -> string)
    requires inv.key == slug(inv.name)
    ensures InvitationOf(RowOf(inv), slug) == inv
  {
    ItoaRoundTrip(inv.priority);
  }

  /** A six-cell row with a canonically written priority is rebuilt exactly from its record. */
  lemma RowOfInvitationOf(row: Row, slug: string -> string)
    requires |row| == PrefixColumn + 1 && IsCanonical(row[2])
    ensures RowOf(InvitationOf(row, slug)) == row
  {
    CanonicalRoundTrip(row[2]);
  }

  /** A row without the prefix column reads as one whose prefix cell is empty. */
  lemma MissingPrefixIsEmpty(row: Row, slug: string -> string)
    requires |row| == RequiredCells
    ensures InvitationOf(row, slug) == InvitationOf(row + [""], slug)
  {
  }

  /** Cells after the prefix column are ignored. */
  lemma ExtraCellsIgnored(row: Row, slug: string -> string)
    requires |row| > PrefixColumn + 1
    ensures InvitationOf(row, slug) == InvitationOf(row[..PrefixColumn + 1], slug)
  {
  }

  /** The records of a sequence of well-shaped rows, in row order. */
  function InvitationsOf(rows: seq<Row>, slug: string -> string): (invs: seq<Invitation>)
    requires forall i :: 0 <= i < |rows| ==> WellShaped(rows[i])
    ensures |invs| == |rows|
    ensures forall i :: 0 <= i < |rows| ==> invs[i] == InvitationOf(rows[i], slug)
  {
    seq(|rows|, i requires 0 <= i < |rows| => InvitationOf(rows[i], slug))
  }

  // ---------------------------------------------------------------------------
  // Invitation links written back into the sheet

  /** One cell update: the A1-style address of the cell and the text written there. */
  datatype LinkWrite = LinkWrite(cell: string, link: string)

  /** The link cell of a sheet row: the link column's letters, then the row number. */
  function CellAddress(column: string, sheetRow: int): (cell: string)
    ensures |cell| > |column| && cell[..|column|] == column
    ensures IsCanonical(cell[|column|..]) && DecimalValue(cell[|column|..]) == sheetRow
  {
    ItoaRoundTrip(sheetRow);
    var cell := column + Itoa(sheetRow);
    assert cell[|column|..] == Itoa(sheetRow);
    cell
  }

  /** The personal invitation URL of a guest: the base URL, a slash and the key. */
  function InvitationLink(baseUrl: string, key: string): (link: string)
    ensures |link| == |baseUrl| + 1 + |key|
    ensures link[..|baseUrl|] == baseUrl && link[|baseUrl|] == '/'
    ensures link[|baseUrl| + 1..] == key
  {
    baseUrl + "/" + key
  }

  /** The update `regenerateInvivationLink` issues for one sheet row and key. */
  function RegenerateLink(sheetRow: int, key: string, baseUrl: string, column: string): LinkWrite {
    LinkWrite(CellAddress(column, sheetRow), InvitationLink(baseUrl, key))
  }

  /** Different sheet rows get different link cells. */
  lemma CellAddressInjective(column: string, a: int, b: int)
    requires CellAddress(column, a) == CellAddress(column, b)
    ensures a == b
  {
  }

  /** The key can be read back from the link, so different keys get different links. */
  lemma InvitationLinkInjective(baseUrl: string, k1: string, k2: string)
    requires InvitationLink(baseUrl, k1) == InvitationLink(baseUrl, k2)
    ensures k1 == k2
  {
  }

  /** The updates for the records of rows 0 .. |invs|-1, row i going to sheet row i + 2. */
  function LinkWritesOf(invs: seq<Invitation>, baseUrl: string, column: string): (writes: seq<LinkWrite>)
    ensures |writes| == |invs|
    ensures forall i :: 0 <= i < |invs| ==>
      writes[i] == RegenerateLink(i + FirstDataSheetRow, invs[i].key, baseUrl, column)
  {
    seq(|invs|, i requires 0 <= i < |invs| =>
      RegenerateLink(i + FirstDataSheetRow, invs[i].key, baseUrl, column))
  }

  /** Appending a record appends its update, for the next sheet row. */
  lemma LinkWritesAppend(invs: seq<Invitation>, inv: Invitation, baseUrl: string, column: string)
    ensures LinkWritesOf(invs + [inv], baseUrl, column) ==
      LinkWritesOf(invs, baseUrl, column) + [RegenerateLink(|invs| + FirstDataSheetRow, inv.key, baseUrl, column)]
  {
  }

  /** No two link updates of one run target the same cell. */
  lemma LinkCellsDistinct(invs: seq<Invitation>, baseUrl: string, column: string, i: nat, j: nat)
    requires i < j < |invs|
    ensures LinkWritesOf(invs, baseUrl, column)[i].cell != LinkWritesOf(invs, baseUrl, column)[j].cell
  {
  }

  // ---------------------------------------------------------------------------
  // The guest map

  type InvitationMap = map<string, Invitation>

  /** Inserting the records one by one, in order, so that a later key overwrites. */
  function MapOf(invs: seq<Invitation>): InvitationMap {
    if invs == [] then map[]
    else
      var last := invs[|invs| - 1];
      MapOf(invs[..|invs| - 1])[last.key := last]
  }

  function KeysOf(invs: seq<Invitation>): set<string> {
    set i | 0 <= i < |invs| :: invs[i].key
  }

  predicate KeysDistinct(invs: seq<Invitation>) {
    forall i, j :: 0 <= i < j < |invs| ==> invs[i].key != invs[j].key
  }

  /** The map holds exactly the keys of the records, each under its own key. */
  lemma {:induction false} MapOfKeys(invs: seq<Invitation>)
    ensures MapOf(invs).Keys == KeysOf(invs)
    ensures forall k :: k in MapOf(invs) ==> MapOf(invs)[k].key == k
  {
    if invs != [] {
      var init := invs[..|invs| - 1];
      MapOfKeys(init);
      assert KeysOf(invs) == KeysOf(init) + {invs[|invs| - 1].key} by {
        forall k | k in KeysOf(invs) ensures k in KeysOf(init) + {invs[|invs| - 1].key} {
          var i :| 0 <= i < |invs| && invs[i].key == k;
          if i < |invs| - 1 {
            assert init[i] == invs[i];
          }
        }
        forall k | k in KeysOf(init) ensures k in KeysOf(invs) {
          var i :| 0 <= i < |init| && init[i].key == k;
          assert invs[i] == init[i];
        }
      }
    }
  }

  /** Last writer wins: a record no later record shares its key with is the one the map holds. */
  lemma {:induction false} MapOfLastWriterWins(invs: seq<Invitation>, i: nat)
    requires i < |invs|
    requires forall j :: i < j < |invs| ==> invs[j].key != invs[i].key
    ensures invs[i].key in MapOf(invs) && MapOf(invs)[invs[i].key] == invs[i]
  {
    if i < |invs| - 1 {
      var init := invs[..|invs| - 1];
      assert init[i] == invs[i];
      MapOfLastWriterWins(init, i);
    }
  }

  /** Every entry of the map is one of the records. */
  lemma {:induction false} MapOfValues(invs: seq<Invitation>, k: string)
    requires k in MapOf(invs)
    ensures exists i :: 0 <= i < |invs| && MapOf(invs)[k] == invs[i]
  {
    var last := invs[|invs| - 1];
    if k != last.key {
      var init := invs[..|invs| - 1];
      MapOfValues(init, k);
      var i :| 0 <= i < |init| && MapOf(init)[k] == init[i];
      assert invs[i] == init[i];
    }
  }

  lemma {:induction false} KeysOfSize(invs: seq<Invitation>)
    ensures |KeysOf(invs)| <= |invs|
    ensures |KeysOf(invs)| == |invs| <==> KeysDistinct(invs)
  {
    if invs != [] {
      var init, last := invs[..|invs| - 1], invs[|invs| - 1];
      KeysOfSize(init);
      assert KeysOf(invs) == KeysOf(init) + {last.key} by {
        forall k | k in KeysOf(invs) ensures k in KeysOf(init) + {last.key} {
          var i :| 0 <= i < |invs| && invs[i].key == k;
          if i < |invs| - 1 {
            assert init[i] == invs[i];
          }
        }
        forall k | k in KeysOf(init) ensures k in KeysOf(invs) {
          var i :| 0 <= i < |init| && init[i].key == k;
          assert invs[i] == init[i];
        }
      }
      if last.key in KeysOf(init) {
        var i :| 0 <= i < |init| && init[i].key == last.key;
        assert invs[i].key == invs[|invs| - 1].key;
      } else {
        if KeysDistinct(init) {
          forall i, j | 0 <= i < j < |invs| ensures invs[i].key != invs[j].key {
            if j < |invs| - 1 {
              assert invs[i] == init[i] && invs[j] == init[j];
            } else {
              assert invs[i] == init[i];
            }
          }
        } else {
          var i, j :| 0 <= i < j < |init| && init[i].key == init[j].key;
          assert invs[i] == init[i] && invs[j] == init[j];
        }
      }
    }
  }

  /** The map has one entry per distinct key: fewer than the rows exactly when a key repeats. */
  lemma MapOfSize(invs: seq<Invitation>)
    ensures |MapOf(invs)| <= |invs|
    ensures |MapOf(invs)| == |invs| <==> KeysDistinct(invs)
  {
    MapOfKeys(invs);
    KeysOfSize(invs);
    assert |MapOf(invs)| == |MapOf(invs).Keys|;
  }
}
