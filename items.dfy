/** Eleventy collection items, as the site's collections and filters see them. */
module Items {
  import opened Js

  /** The page data fields the build logic reads (`item.data`, and the `data` argument of
      computed-data functions). `published` and `isPrivate` hold the truthiness of the
      front-matter values `published` and `private`; the last three are passed through
      unchanged by the visibility plugins, so they keep their JavaScript values. */
  datatype PageData = PageData(
    published: bool,
    isPrivate: bool,
    parent: Option<string>,
    tags: Option<seq<string>>,
    category: Option<string>,
    date: Value,
    permalink: Value,
    eleventyExcludeFromCollections: Value)

  /** A collection item. Only `children` is ever assigned by the site's code (by the
      content tree builder); everything else is fixed once Eleventy has built the item.
      `date` is the item's date as milliseconds since the epoch. */
  class Item {
    const fileSlug: string
    const date: int
    const data: PageData
    var children: seq<Item>

    constructor (fileSlug: string, date: int, data: PageData, children: seq<Item>)
      ensures this.fileSlug == fileSlug && this.date == date && this.data == data
      ensures this.children == children
    {
      this.fileSlug := fileSlug;
      this.date := date;
      this.data := data;
      this.children := children;
    }
  }
}
