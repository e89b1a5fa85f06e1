/** A whole data set written out and read back, node by node on both sides. */
module HdfFiles {
  import opened Options
  import opened HdfTree
  import opened HdfStore
  import opened HdfDump
  import R = HdfRead
  import P = HdfPrinter
  import Q = HdfReader
  import opened HdfNormal
  import L = HdfReadPlain
  import opened HdfLevel
  import opened HdfPlain

  /** `hdf_dump_str` followed by `hdf_read_string` into an empty data set gives back the normal form
      without the nodes that nothing is printed for; and that is every name, the order of the
      siblings, every value, link and attribute exactly if the tree is printable. */
  method WriteThenRead(h: HdfStore, fmt: Format, forceHashAt: nat) returns (text: string, g: HdfStore)
    requires h.Valid() && Legible(Normal(h.T.kids))
    ensures text == Dump(h.T.kids, None, fmt, 0)
    ensures g.Valid() && fresh(g) && g.T == Tree("", EmptyData, Back(Normal(h.T.kids), fmt))
    ensures g.T.kids == h.T.kids <==> Printable(h.T.kids)
  {
    NormalIsDumpable(h.T.kids);
    text := P.PrintNodes(h, h.root, None, fmt, 0);
    g := new HdfStore(forceHashAt);
    ReadsNormal(h.T.kids, fmt, true, 0);
    assert text[0..] == text;
    var ok, pos := Q.ReadLines(g, g.root, text, 0, true, 0);
    assert ok && text[pos..] == "";
  }

  /** `hdf_read_string` of any text without link lines, at any node of a data set without links:
      it comes to an end, and there are no links afterwards either. */
  method ReadPlain(h: HdfStore, hdf: Hdf, str: string, strict: bool) returns (ok: bool, pos: nat)
    requires h.Valid() && hdf in h.nodes && Plain(h.T) && L.NoLinkLines(str)
    modifies h`T, h`nodes, h.nodes
    ensures h.Valid() && old(h.nodes) <= h.nodes && Plain(h.T) && pos <= |str|
    ensures Has(old(h.T), hdf.path) &&
      R.ReadText(old(h.T), hdf.path, str, strict, 0) == if ok then R.Read(h.T, str[pos..]) else R.Failed(h.T)
  {
    hide HdfStore.Valid, L.NoLinkLines, R.ReadText;
    h.Shown(hdf);
    assert str[0..] == str;
    L.PlainReadEnds(h.T, hdf.path, str, strict, 0);
    ok, pos := Q.ReadLines(h, hdf, str, 0, strict, 0);
  }
}
