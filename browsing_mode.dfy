/** The two browsing modes of the application. */
module BrowsingModes {

  datatype BrowsingMode = Normal | Private {

    /**
     * Mode of a tab from its "is private" flag. The definition of
     * `BrowsingMode.fromBoolean` is not part of this model; it is assumed to
     * map `true` to Private and `false` to Normal.
     */
    static function FromBoolean(isPrivate: bool): (m: BrowsingMode)
      ensures m.IsPrivate() == isPrivate
    {
      if isPrivate then Private else Normal
    }

    predicate IsPrivate() {
      this == Private
    }
  }
}
