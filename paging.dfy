/** The paging values of the repository layer: a requested page and a returned page. */
module Paging {
  import opened JavaInt
  import opened Domain

  datatype Direction = Asc | Desc

  /** A request for the zero-based page `page` of `size` items, sorted on `property`. */
  datatype PageRequest = PageRequest(page: int32, size: int32, direction: Direction, property: string)

  /** A page of articles: its zero-based number, the number of pages in all, and its items. */
  datatype Page = Page(number: int32, totalPages: int32, content: seq<Article>)
}
