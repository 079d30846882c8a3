/**
 * `save_bibtex_to_file`, identical in doi2bib2/utils.py, doi2bib3/utils.py
 * and bib_utils.py. The file system is replaced by what the probe of the
 * target path finds, and the call returns the file's contents afterwards.
 */
module BibFile {

  /** What the probe (`os.path.exists`, `getsize`, reading the last byte)
      finds at the path. `Unreadable` is an `OSError` during the probe; the
      append that follows still writes after the contents the file has. */
  datatype FileState =
    | Missing
    | Present(contents: string)
    | Unreadable(contents: string)

  /** What is in the file before the write; a missing file is empty. */
  function Existing(f: FileState): string {
    match f
    case Missing => ""
    case Present(c) => c
    case Unreadable(c) => c
  }

  /** The separator an append writes before the text: one newline exactly
      when the file is non-empty and does not end in a newline, or when the
      probe failed. */
  function Separator(f: FileState): (p: string)
    ensures p == "" || p == "\n"
    ensures p == "\n" <==>
      f.Unreadable? || (f.Present? && f.contents != "" && f.contents[|f.contents| - 1] != '\n')
  {
    match f
    case Missing => ""
    case Present(c) => if c != "" && c[|c| - 1] != '\n' then "\n" else ""
    case Unreadable(_) => "\n"
  }

  /** `save_bibtex_to_file(bib_str, path, append)`: overwrite, or compute
      `prefix` step by step and append it with the text. */
  method SaveBibtex(text: string, f: FileState, append: bool) returns (after: string)
    ensures !append ==> after == text
    ensures append ==> after == Existing(f) + Separator(f) + text
  {
    if !append {
      after := text;
      return;
    }
    var prefix := "";
    match f {
      case Missing =>
      case Present(c) =>
        if |c| > 0 {
          var last := c[|c| - 1];
          if last != '\n' {
            prefix := "\n";
          }
        }
      case Unreadable(_) =>
        prefix := "\n";
    }
    after := Existing(f);
    if prefix != "" {
      after := after + prefix;
    }
    after := after + text;
  }

  /** A missing or empty file gets no separator: the file is then the text. */
  lemma AppendToEmpty(text: string, f: FileState)
    requires f.Missing? || f == Present("")
    ensures Existing(f) + Separator(f) + text == text
  {
  }

  /** Appending keeps the old contents, ends with the text and puts at most
      one newline between them. */
  lemma AppendShape(text: string, f: FileState)
    ensures var after := Existing(f) + Separator(f) + text;
      after[..|Existing(f)|] == Existing(f) &&
      after[|after| - |text|..] == text &&
      |after| - |Existing(f)| - |text| <= 1
  {
  }

  /** After an append to a readable, non-empty file the text starts on a line
      of its own, and no empty line is added when the file already ended in
      a newline. */
  lemma AppendStartsLine(text: string, c: string)
    requires c != ""
    ensures var after := Existing(Present(c)) + Separator(Present(c)) + text;
      after[|after| - |text| - 1] == '\n' &&
      (c[|c| - 1] == '\n' ==> after == c + text)
  {
    var after := c + Separator(Present(c)) + text;
    if c[|c| - 1] == '\n' {
      assert after == c + text;
      assert after[|c| - 1] == c[|c| - 1];
    } else {
      assert after == c + "\n" + text;
      assert after[|c|] == '\n';
    }
  }

  /** A failed probe still separates with a newline, even when the file ends
      in one already. */
  lemma AppendAfterFailedProbe(text: string, c: string)
    ensures Existing(Unreadable(c)) + Separator(Unreadable(c)) + text == c + "\n" + text
  {
  }
}
