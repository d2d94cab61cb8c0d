/**
 * The two persisted settings this core reads or writes. Storage, its
 * background thread and its failures are not part of this model.
 */
module Utils {
  import opened BrowsingModes

  class Settings {
    /** the browsing mode last seen, restored at start-up */
    var lastKnownMode: BrowsingMode
    /** whether screenshots are allowed in private mode */
    var allowScreenshotsInPrivateMode: bool

    constructor (lastKnownMode: BrowsingMode, allowScreenshotsInPrivateMode: bool)
      ensures this.lastKnownMode == lastKnownMode
      ensures this.allowScreenshotsInPrivateMode == allowScreenshotsInPrivateMode
    {
      this.lastKnownMode := lastKnownMode;
      this.allowScreenshotsInPrivateMode := allowScreenshotsInPrivateMode;
    }
  }
}
