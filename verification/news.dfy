/** One article as the list screen receives it. The record is immutable: its five
    fields are set once, by the constructor, and only read afterwards.
 */
module NewsRecord {

  /** The fields in the order the constructor declares its parameters:
      title, section, time, url, author. The destructors are the five getters
      `getmTitle` … `getmAuthor`. */
  datatype News = News(title: string, section: string, time: string, url: string, author: string)

  /** `new News(title, section, time, url, author)`: each getter returns the
      argument passed in the matching parameter position. */
  function Create(title: string, section: string, time: string, url: string, author: string): (n: News)
    ensures n.title == title
    ensures n.section == section
    ensures n.time == time
    ensures n.url == url
    ensures n.author == author
  {
    News(title, section, time, url, author)
  }
}
