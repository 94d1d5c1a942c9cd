/** The printer and the parser back to back. */
module XmlEndToEnd {
  import opened Common
  import opened XmlDoc
  import opened XmlRoundTrip
  import opened XmlTheorems
  import XmlPrinter
  import XmlParser
  import XmlShared
  import XmlSpans

  lemma {:induction false} ClipKeepsNulFree(doc: Document)
    requires ListNulFree(doc.children)
    ensures ListNulFree(XmlPrinter.ClipDocument(doc).children)
  {
    var ns := doc.children;
    forall i | 0 <= i < |ns| ensures NodeNulFree(XmlPrinter.ClipNodes(ns)[i]) { ClippedNulFree(ns[i]); }
  }

  lemma {:induction false} ClippedNulFree(n: Node)
    requires NodeNulFree(n)
    ensures NodeNulFree(XmlPrinter.ClipNode(n))
  {
    hide XmlPrinter.TrailingRun;
    if n.Element? {
      forall i | 0 <= i < |n.children| ensures NodeNulFree(XmlPrinter.ClipNodes(n.children)[i]) {
        ClippedNulFree(n.children[i]);
      }
    }
  }

  /** Printing a document and parsing the text gives back the document, clipped as the printer clips
      it, exactly if that is printable; the parser is then at depth 0 without an error. A document
      that fits is not clipped, and neither is one whose text an in-memory printer can hold. */
  method PrintAndParse(doc: Document) returns (again: Document, error: Option<XmlError>)
    requires ListNulFree(doc.children)
    ensures var c := XmlPrinter.ClipDocument(doc);
      && (error == None && again == c <==> Printable(c))
      && (c == doc <==> forall i :: 0 <= i < |doc.children| ==> XmlPrinter.Fits(doc.children[i]))
      && (|Print(c)| < XmlPrinter.INT_MAX ==> c == doc)
  {
    hide *;
    var printer := new XmlPrinter.Printer();
    printer.PrintDocument(doc);
    var parser := new XmlParser.Parser(printer.buffer);
    var spans;
    again, spans := parser.ParseDocument(printer.buffer);
    error := parser.error;
    XmlPrinter.ClipDocumentIff(doc);
    if |Print(XmlPrinter.ClipDocument(doc))| < XmlPrinter.INT_MAX { XmlPrinter.ShortIsWhole(doc); }
    ClipKeepsNulFree(doc);
    RoundTripIff(XmlPrinter.ClipDocument(doc));
  }

  /** The same down to the buffer: the strings of the parsed document, read in place in any order,
      some of them while the parse goes on, are those of the printed one. */
  method PrintAndRead(doc: Document, early: seq<seq<nat>>, order: seq<nat>) returns (values: seq<string>)
    requires ListNulFree(doc.children) && Printable(XmlPrinter.ClipDocument(doc))
    requires forall k :: 0 <= k < |order| ==> order[k] < |XmlSpans.ListLeaves(XmlPrinter.ClipDocument(doc).children)|
    ensures |values| == |order|
    ensures forall k :: 0 <= k < |order| ==>
      values[k] == XmlSpans.ListLeaves(XmlPrinter.ClipDocument(doc).children)[order[k]]
  {
    hide *;
    ghost var leaves := XmlSpans.ListLeaves(XmlPrinter.ClipDocument(doc).children);
    var printer := new XmlPrinter.Printer();
    printer.PrintDocument(doc);
    ClipKeepsNulFree(doc);
    RoundTripIff(XmlPrinter.ClipDocument(doc));
    var error, again, pairs, buffer, unread := XmlShared.Load(printer.buffer, early);
    XmlShared.StandLength(pairs, buffer, leaves);
    values := XmlShared.ReadAll(pairs, buffer, order, leaves);
  }
}
