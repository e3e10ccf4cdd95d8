/** The static course catalogue: per domain slug and level, the ordered steps
    of a course, each with a title, video links and resources. */
module Catalog {

  /** A resource is either a bare link or an object with a title and a url
      (an empty string stands for a missing field). */
  datatype Resource = Link(href: string) | File(title: string, url: string)

  datatype CatalogStep = CatalogStep(title: string, links: seq<string>, resources: seq<Resource>)

  /** The content files, keyed by (domain slug, level slug); a missing key is a
      file that cannot be read. */
  type Catalogue = map<(string, string), seq<CatalogStep>>
}
