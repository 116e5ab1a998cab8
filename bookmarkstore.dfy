/**
 * Settings::bookmarkPaths, the set of bookmarked directories that the copy/move-to dialog
 * edits and the bookmarks pane shows.
 */
module BookmarkStore {
  import opened Text

  class BookmarkSettings {
    var bookmarkPaths: set<Path>

    constructor (paths: set<Path>)
      ensures bookmarkPaths == paths
    {
      bookmarkPaths := paths;
    }
  }
}
