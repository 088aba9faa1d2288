/** The page names the navigation uses and the page classes behind them. */
module Pages {

  /** The names `show_page` is called with; any other text is `Other`. */
  datatype Key = Home | About | Contact | DashboardKey | Upload | VisualizationKey
               | PredictionKey | ReportKey | UserManagement | Other(name: string)

  /** The page classes a factory can build (the plain frames of the Home
      and Contact fallbacks included under their page). */
  datatype PageKind = HomePage | AboutPage | ContactPage | DashboardPage | UploadPage
                    | VisualizationPage | PredictionPage | ReportPage | UserManagementPage

  /** The pages that carry a `_shutdown` flag once shut down, whether from
      their constructor or from their stop method. */
  predicate ShutdownAware(k: PageKind) {
    k in {DashboardPage, UploadPage, VisualizationPage, PredictionPage, ReportPage}
  }
}
