/** The script's entry point: which handler a page load runs. */
module Entry {
  import opened Config
  import opened Strings

  datatype View = ListView | DetailView

  /** The list handler runs exactly when the URL contains "evaluation/index";
      every other matched page is treated as a detail page. */
  function Route(url: string): (v: View)
    ensures v == ListView <==> Contains(url, ListMarker)
  {
    if IndexOf(url, ListMarker) != -1 then ListView else DetailView
  }
}
