/** The fluent helper that adds an extension filter to a reconciler. */
module ReconcilerExtensions {

  import opened FileFilters
  import opened Reconciliation

  /**
   * Appends one filter excluding exactly the given extensions and returns the
   * very reconciler it was called on.
   */
  method ExcludeExtensions(recon: Reconciler, extensions: seq<string>) returns (r: Reconciler)
    modifies recon
    ensures r == recon
    ensures |recon.fileFilters| == |old(recon.fileFilters)| + 1
    ensures recon.fileFilters[..|old(recon.fileFilters)|] == old(recon.fileFilters)
    ensures recon.fileFilters[|old(recon.fileFilters)|] == NewFileExtensionFilter(extensions)
    ensures recon.report == old(recon.report)
  {
    recon.AddFilter(NewFileExtensionFilter(extensions));
    r := recon;
  }

  /** The way the program sets itself up: one filter that excludes nothing, so admits every path. */
  method NewReconcilerExcludingNothing() returns (r: Reconciler)
    ensures fresh(r)
    ensures |r.fileFilters| == 1
    ensures forall path :: r.fileFilters[0].Include(path)
    ensures r.report == null
  {
    var recon := new Reconciler();
    r := ExcludeExtensions(recon, []);
    forall path ensures r.fileFilters[0].Include(path) {
      EmptyFilterAdmitsAll(path);
    }
  }
}
