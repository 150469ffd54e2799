/** The seed list of matches that the in-memory views start from. */
module Constants {
  import opened Types
  import opened Calculations

  const InitialMatches: seq<MatchRecord> := [
    MatchRecord("1", Date(2024, 3, 15), "Berserker", 11, 4, Win),
    MatchRecord("2", Date(2024, 3, 22), "Warriors FC", 8, 8, Draw),
    MatchRecord("3", Date(2024, 3, 29), "Thunder United", 5, 9, Loss),
    MatchRecord("4", Date(2024, 4, 5), "Storm FC", 12, 3, Win),
    MatchRecord("5", Date(2024, 4, 12), "Phoenix SC", 6, 7, Loss),
    MatchRecord("6", Date(2024, 4, 19), "Dragons United", 9, 5, Win),
    MatchRecord("7", Date(2024, 4, 26), "Lightning FC", 7, 7, Draw),
    MatchRecord("8", Date(2024, 5, 3), "Titans SC", 4, 10, Loss)
  ]

  /** Every seed record's stored result is the one its scores give. */
  lemma InitialResultsAreDerived()
    ensures forall i :: 0 <= i < |InitialMatches| ==>
      InitialMatches[i].result == CalculateResult(InitialMatches[i].voltaScore, InitialMatches[i].oppositionScore)
  {
  }
}
