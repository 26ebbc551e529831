/** Names shared by the article writer and the home page. */
module Site {
  /** Suffix of every page of the site. */
  const HtmlSuffix: string := ".html"

  /** Folder holding the articles, below the site root. */
  const ArticleFolder: string := "mon_site_news"
}
