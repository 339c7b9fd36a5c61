/**
 * The body of the script's `main`: build one invitation per spreadsheet row,
 * optionally write each guest's link back into the sheet, and fold the
 * records into the guest map that is published to the document store.
 *
 * Environment variables are parameters: `regenerateFlag` is REGENERATE_LINK,
 * `baseUrl` is INVITATION_BASE_URL and `linkColumn` is LINK_SHEET_COL. The
 * sheet updates are returned as a list of writes instead of being sent.
 */
module GuestSync {
  import opened Strconv
  import opened Invitations

  /**
   * The row loop. A row with fewer than five cells makes Go panic on an index
   * out of range before that row has any effect; the loop then stops with
   * `completed` false, and the records and link writes of the rows before it
   * are what was built and sent up to that point.
   */
  method BuildInvitations(
    rows: seq<Row>, slug: string -> string, regenerate: bool, baseUrl: string, linkColumn: string)
    returns (invitations: seq<Invitation>, writes: seq<LinkWrite>, completed: bool)
    ensures completed <==> forall i :: 0 <= i < |rows| ==> WellShaped(rows[i])
    ensures completed ==> |invitations| == |rows|
    ensures !completed ==> |invitations| < |rows| && !WellShaped(rows[|invitations|])
    ensures forall i :: 0 <= i < |invitations| ==>
      WellShaped(rows[i]) && invitations[i] == InvitationOf(rows[i], slug)
    ensures writes == if regenerate then LinkWritesOf(invitations, baseUrl, linkColumn) else []
  {
    invitations, writes := [], [];
    var i := 0;
    while i < |rows|
      invariant i <= |rows| && |invitations| == i
      invariant forall j :: 0 <= j < i ==>
        WellShaped(rows[j]) && invitations[j] == InvitationOf(rows[j], slug)
      invariant writes == if regenerate then LinkWritesOf(invitations, baseUrl, linkColumn) else []
    {
      var row := rows[i];
      if |row| < RequiredCells {
        return invitations, writes, false;
      }
      var priority, parsed := Atoi(row[2]);
      var name := row[0];
      var sheetRow := i + FirstDataSheetRow;
      var key := slug(name);
      var prefix := "";
      if |row| > PrefixColumn {
        prefix := row[PrefixColumn];
      }
      var inv := Invitation(name, row[1], priority, row[3], row[4], prefix, key);
      assert inv == InvitationOf(row, slug);
      LinkWritesAppend(invitations, inv, baseUrl, linkColumn);
      invitations := invitations + [inv];
      if regenerate {
        writes := writes + [RegenerateLink(sheetRow, key, baseUrl, linkColumn)];
      }
      i := i + 1;
    }
    completed := true;
  }

  /** The map fold: insert each record under its key, in row order. */
  method AssembleMap(invitations: seq<Invitation>) returns (guests: InvitationMap)
    ensures guests == MapOf(invitations)
    ensures guests.Keys == KeysOf(invitations)
    ensures forall k :: k in guests ==> guests[k].key == k
    ensures |guests| <= |invitations|
  {
    guests := map[];
    for i := 0 to |invitations|
      invariant guests == MapOf(invitations[..i])
    {
      assert invitations[..i + 1][..i] == invitations[..i];
      guests := guests[invitations[i].key := invitations[i]];
    }
    assert invitations[..|invitations|] == invitations;
    MapOfKeys(invitations);
    MapOfSize(invitations);
  }

  /** How a run ends: a panic on a short row, or the guest map that is published. */
  datatype Outcome = Panicked(row: nat) | Published(guests: InvitationMap)

  /** Rows to guest map, with the link writes issued along the way. */
  method Sync(
    rows: seq<Row>, slug: string -> string, regenerateFlag: string, baseUrl: string, linkColumn: string)
    returns (outcome: Outcome, writes: seq<LinkWrite>)
    ensures outcome.Published? <==> forall i :: 0 <= i < |rows| ==> WellShaped(rows[i])
    ensures outcome.Published? ==> outcome.guests == MapOf(InvitationsOf(rows, slug))
    ensures outcome.Panicked? ==>
      outcome.row < |rows| && !WellShaped(rows[outcome.row]) &&
      forall i :: 0 <= i < outcome.row ==> WellShaped(rows[i])
    ensures regenerateFlag != "1" ==> writes == []
    ensures regenerateFlag == "1" ==>
      |writes| == (if outcome.Panicked? then outcome.row else |rows|) &&
      forall i :: 0 <= i < |writes| ==>
        WellShaped(rows[i]) &&
        writes[i] == RegenerateLink(i + FirstDataSheetRow, slug(rows[i][0]), baseUrl, linkColumn)
  {
    var regenerate := regenerateFlag == "1";
    var invitations, completed;
    invitations, writes, completed := BuildInvitations(rows, slug, regenerate, baseUrl, linkColumn);
    if !completed {
      return Panicked(|invitations|), writes;
    }
    assert invitations == InvitationsOf(rows, slug);
    var guests := AssembleMap(invitations);
    outcome := Published(guests);
  }
}
