/** The constants `ArticleService` declares; `ArticlePage` uses the pagination interval. */
module ServiceConstants {
  import opened JavaInt

  const ValidationExceptionMessage: string := "입력데이터를 다시확인해 주시기 바랍니다."
  const InvalidRequestExceptionMessage: string := "잘못된 요청입니다"
  const PagePerArticleNumber: int32 := 5
  const PaginationIntervalFromCurrentPageNumber: int32 := 5
}
