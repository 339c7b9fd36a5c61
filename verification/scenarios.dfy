/** Concrete runs of the record builder, stated as lemmas about the model. */
module Scenarios {
  import opened Strconv
  import opened Invitations

  /** Atoi's error is discarded: unreadable priorities become 0, a sign is honoured. */
  lemma PriorityExamples()
    ensures PriorityOf("3") == 3
    ensures PriorityOf("+12") == 12
    ensures PriorityOf("-4") == -4
    ensures PriorityOf("") == 0
    ensures PriorityOf("-") == 0
    ensures PriorityOf("abc") == 0
    ensures PriorityOf(" 3") == 0
  {
  }

  /** The second data row's link goes to row 3 of the link column. */
  lemma LinkExample()
    ensures RegenerateLink(1 + FirstDataSheetRow, "jane-doe", "https://x.test", "G")
      == LinkWrite("G3", "https://x.test/jane-doe")
  {
  }

  /** One full row with link regeneration off yields a one-entry guest map. */
  lemma SingleGuest(slug: string -> string)
    requires slug("Jane Doe") == "jane-doe"
    ensures MapOf(InvitationsOf([["Jane Doe", "Jakarta", "3", "2", "F", ""]], slug))
      == map["jane-doe" := Invitation("Jane Doe", "Jakarta", 3, "2", "F", "", "jane-doe")]
  {
  }

  /** Two guests whose names give the same slug: only the later row survives. */
  lemma SameSlugLaterRowWins(slug: string -> string)
    requires slug("Jane Doe") == slug("jane doe")
    ensures
      var invs := InvitationsOf([["Jane Doe", "Jakarta", "1", "2", "F"], ["jane doe", "Bandung", "2", "1", "F"]], slug);
      MapOf(invs) == map[slug("Jane Doe") := invs[1]] && invs[1].domicile == "Bandung"
  {
    var invs := InvitationsOf([["Jane Doe", "Jakarta", "1", "2", "F"], ["jane doe", "Bandung", "2", "1", "F"]], slug);
    assert invs[..1][..0] == [];
    assert invs[..1] == [invs[0]];
    assert invs[0].key == invs[1].key == slug("Jane Doe");
    assert MapOf(invs[..1]) == map[invs[0].key := invs[0]];
    assert MapOf(invs) == MapOf(invs[..1])[invs[1].key := invs[1]];
  }
}
