/**
 * The two strings `make_qr_label` builds from an input line: the payload
 * handed to the QR encoder and the name of the PNG file it writes, and the
 * empty-line filter that decides which lines become tasks at all.
 */
module Label {

  /** `base_url`: the fixed prefix of every encoded payload. */
  const BaseUrl: string := "http://csgyn.com/t/?qr="

  /** The extension appended to a line to name its output file. */
  const PngExtension: string := ".png"

  /** The payload to encode: the base URL followed by the line, unescaped. */
  function QrPayload(line: string): (payload: string)
    ensures |payload| == |BaseUrl| + |line|
    ensures payload[..|BaseUrl|] == BaseUrl && payload[|BaseUrl|..] == line
  {
    BaseUrl + line
  }

  /** The output file name: the line followed by ".png", unsanitised. */
  function FileName(line: string): (name: string)
    ensures |name| == |line| + |PngExtension|
    ensures name[..|line|] == line && name[|line|..] == PngExtension
  {
    line + PngExtension
  }

  /** What a decoder of the payload recovers: the text after the base URL. */
  function LineOfPayload(payload: string): (line: Option<string>)
    ensures line.Some? <==> |BaseUrl| <= |payload| && payload[..|BaseUrl|] == BaseUrl
  {
    if |BaseUrl| <= |payload| && payload[..|BaseUrl|] == BaseUrl then Some(payload[|BaseUrl|..]) else None
  }

  /** The line an output file name was made from, if it ends in ".png". */
  function LineOfFileName(name: string): (line: Option<string>)
    ensures line.Some? <==> |PngExtension| <= |name| && name[|name| - |PngExtension|..] == PngExtension
  {
    if |PngExtension| <= |name| && name[|name| - |PngExtension|..] == PngExtension
    then Some(name[..|name| - |PngExtension|])
    else None
  }

  /** A value that may be missing. */
  datatype Option<T> = None | Some(value: T)

  /** Decoding the payload gives back exactly the line that was encoded. */
  lemma PayloadRoundTrip(line: string)
    ensures LineOfPayload(QrPayload(line)) == Some(line)
  {
  }

  /** Every payload LineOfPayload accepts is the payload of the line it returns. */
  lemma PayloadOfLineOfPayload(payload: string)
    requires LineOfPayload(payload).Some?
    ensures QrPayload(LineOfPayload(payload).value) == payload
  {
    assert payload == payload[..|BaseUrl|] + payload[|BaseUrl|..];
  }

  /** Stripping ".png" from the file name gives back the line. */
  lemma FileNameRoundTrip(line: string)
    ensures LineOfFileName(FileName(line)) == Some(line)
  {
  }

  /** Every name ending in ".png" is the file name of the line before it. */
  lemma FileNameOfLineOfFileName(name: string)
    requires LineOfFileName(name).Some?
    ensures FileName(LineOfFileName(name).value) == name
  {
    assert name == name[..|name| - |PngExtension|] + name[|name| - |PngExtension|..];
  }

  /** Distinct lines give distinct payloads and distinct file names. */
  lemma NamesInjective(a: string, b: string)
    requires a != b
    ensures QrPayload(a) != QrPayload(b) && FileName(a) != FileName(b)
  {
    PayloadRoundTrip(a);
    PayloadRoundTrip(b);
    FileNameRoundTrip(a);
    FileNameRoundTrip(b);
  }

  /**
   * The lines `load_input_file` keeps: every non-empty line, in file order.
   * Each kept line becomes exactly one rendering task.
   */
  function NonEmptyLines(lines: seq<string>): (kept: seq<string>)
    ensures |kept| <= |lines|
    ensures forall k :: 0 <= k < |kept| ==> kept[k] != []
  {
    if lines == [] then []
    else
      var rest := NonEmptyLines(lines[..|lines| - 1]);
      var last := lines[|lines| - 1];
      assert lines == lines[..|lines| - 1] + [last];
      if last == [] then rest else rest + [last]
  }

  /** Appending one line to the file appends it to the kept lines unless it is empty. */
  lemma NonEmptyLinesSnoc(front: seq<string>, last: string)
    ensures NonEmptyLines(front + [last]) ==
            if last == [] then NonEmptyLines(front) else NonEmptyLines(front) + [last]
  {
    var lines := front + [last];
    assert lines[..|lines| - 1] == front;
  }

  /** Every non-empty line is kept exactly as often as it occurs; empty lines never are. */
  lemma {:induction false} NonEmptyLinesCounts(lines: seq<string>)
    ensures multiset(NonEmptyLines(lines)) == multiset(lines)[[] := 0]
    ensures forall l :: l in NonEmptyLines(lines) <==> l in lines && l != []
  {
    if lines != [] {
      var front, last := lines[..|lines| - 1], lines[|lines| - 1];
      assert lines == front + [last];
      NonEmptyLinesCounts(front);
      NonEmptyLinesSnoc(front, last);
      assert multiset(lines) == multiset(front) + multiset{last};
    }
  }

  /** One inductive step of `NonEmptyLinesAppend`: from `b` to `b + [last]`. */
  lemma NonEmptyLinesAppendStep(a: seq<string>, b: seq<string>, last: string)
    requires NonEmptyLines(a + b) == NonEmptyLines(a) + NonEmptyLines(b)
    ensures NonEmptyLines(a + (b + [last])) == NonEmptyLines(a) + NonEmptyLines(b + [last])
  {
    SnocAssociates(a, b, last);
    NonEmptyLinesSnoc(a + b, last);
    NonEmptyLinesSnoc(b, last);
    SnocAssociates(NonEmptyLines(a), NonEmptyLines(b), last);
  }

  lemma SnocAssociates<T>(x: seq<T>, y: seq<T>, z: T)
    ensures x + (y + [z]) == (x + y) + [z]
  {
  }

  /** Filtering keeps file order: the lines of `a` come out before those of `b`. */
  lemma {:induction false} NonEmptyLinesAppend(a: seq<string>, b: seq<string>)
    ensures NonEmptyLines(a + b) == NonEmptyLines(a) + NonEmptyLines(b)
  {
    if b == [] {
      assert a + b == a;
    } else {
      var front, last := b[..|b| - 1], b[|b| - 1];
      assert b == front + [last];
      NonEmptyLinesAppend(a, front);
      NonEmptyLinesAppendStep(a, front, last);
    }
  }
}
