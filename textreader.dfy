/**
 * Model of msra::files::textreader (basetypes.h): a line reader with one
 * character of lookahead. The file is an in-memory character sequence; each
 * fgetc takes its first character, and EOF is reported once it is exhausted.
 * A line ends at LF (UNIX), CRLF (DOS) or CR (old Mac) and the terminator is
 * not part of the returned line.
 */
module Files {
  import opened Wrappers

  /** The lookahead character `ch`: a character, or EOF. */
  datatype Lookahead = Eof | Next(c: char)

  datatype ReaderError = ReadBeyondEof

  predicate IsTerminator(c: char)
  {
    c == '\n' || c == '\r'
  }

  /** Index of the first LF or CR in s, or |s| when there is none. */
  function LineLength(s: seq<char>): (k: nat)
    ensures k <= |s|
    ensures forall i :: 0 <= i < k ==> !IsTerminator(s[i])
    ensures k == |s| || IsTerminator(s[k])
  {
    if s == [] || IsTerminator(s[0]) then 0 else 1 + LineLength(s[1..])
  }

  /** What one getline call returns, the terminator it consumes and the input it leaves. */
  datatype LineSplit = LineSplit(line: seq<char>, terminator: seq<char>, rest: seq<char>)

  /**
   * The next line of s: the characters up to the first LF or CR, then exactly
   * one terminator (LF, CR, or CR followed by LF taken together).
   */
  function NextLine(s: seq<char>): (r: LineSplit)
    ensures r.line + r.terminator + r.rest == s
    ensures forall i :: 0 <= i < |r.line| ==> !IsTerminator(r.line[i])
    ensures r.terminator in {[], ['\n'], ['\r'], ['\r', '\n']}
    ensures r.terminator == [] <==> r.line == s
    ensures r.terminator == ['\r'] ==> r.rest == [] || r.rest[0] != '\n'
    ensures s != [] ==> |r.rest| < |s|
  {
    var k := LineLength(s);
    if k == |s| then
      LineSplit(s, [], [])
    else if s[k] == '\r' && k + 1 < |s| && s[k + 1] == '\n' then
      assert s == s[..k] + [s[k], s[k + 1]] + s[k + 2..];
      LineSplit(s[..k], ['\r', '\n'], s[k + 2..])
    else
      assert s == s[..k] + [s[k]] + s[k + 1..];
      LineSplit(s[..k], [s[k]], s[k + 1..])
  }

  /**
   * NextLine is the only way to cut s into a line and a terminator: a
   * terminator-free line followed by one LF, CRLF or CR (the CR not followed
   * by LF) is read back as exactly that line, terminator and rest.
   */
  lemma NextLineOfLine(line: seq<char>, terminator: seq<char>, rest: seq<char>)
    requires forall i :: 0 <= i < |line| ==> !IsTerminator(line[i])
    requires terminator in {['\n'], ['\r'], ['\r', '\n']}
    requires terminator == ['\r'] ==> rest == [] || rest[0] != '\n'
    ensures NextLine(line + terminator + rest) == LineSplit(line, terminator, rest)
  {
    var s := line + terminator + rest;
    var k := |line|;
    assert s[..k] == line;
    LineLengthOf(s, k);
    if terminator == ['\r', '\n'] {
      assert s[k] == '\r' && s[k + 1] == '\n' && s[k + 2..] == rest;
    } else {
      assert s[k] == terminator[0] && s[k + 1..] == rest;
    }
  }

  /** The input left after the line of length k and the terminator that follows it. */
  lemma NextLineRest(s: seq<char>, k: nat, rest: seq<char>)
    requires k == LineLength(s)
    requires k == |s| ==> rest == []
    requires k < |s| && s[k] == '\r' && k + 1 < |s| && s[k + 1] == '\n' ==> rest == s[k + 2..]
    requires k < |s| && !(s[k] == '\r' && k + 1 < |s| && s[k + 1] == '\n') ==> rest == s[k + 1..]
    ensures NextLine(s) == LineSplit(s[..k], NextLine(s).terminator, rest)
  {
  }

  /** A terminator-free prefix followed by EOF or a terminator is exactly the line. */
  lemma LineLengthOf(s: seq<char>, k: nat)
    requires k <= |s|
    requires forall i :: 0 <= i < k ==> !IsTerminator(s[i])
    requires k == |s| || IsTerminator(s[k])
    ensures k == LineLength(s)
  {
  }

  /** Moving one character c from the front of s[k..] to the end of s[..k]. */
  lemma SliceStep(s: seq<char>, k: nat, c: char)
    requires k < |s| && s[k] == c
    ensures s[..k] + [c] == s[..k + 1] && s[k..][1..] == s[k + 1..]
  {
  }

  class TextReader {
    var file: seq<char>    // what fgetc has not delivered yet
    var buf: seq<char>     // characters of the line being read
    var ch: Lookahead      // next character (read ahead by one)

    ghost predicate Valid()
      reads this
    {
      buf == [] && (ch == Eof ==> file == [])
    }

    /** The characters not yet returned by getline: the lookahead, then the file. */
    ghost function Remaining(): seq<char>
      reads this
    {
      match ch
      case Eof => []
      case Next(c) => [c] + file
    }

    /** Opens the reader on the given file contents and reads the first character. */
    constructor (contents: seq<char>)
      ensures Valid() && Remaining() == contents
    {
      buf := [];
      if contents == [] {
        ch, file := Eof, [];
      } else {
        ch, file := Next(contents[0]), contents[1..];
      }
    }

    /** fgetc: the next character of the file, or EOF. */
    method ReadChar() returns (c: Lookahead)
      modifies this`file
      ensures old(file) == [] ==> c == Eof && file == []
      ensures old(file) != [] ==> c == Next(old(file)[0]) && file == old(file)[1..]
    {
      if file == [] {
        c := Eof;
      } else {
        c := Next(file[0]);
        file := file[1..];
      }
    }

    /** getch: returns the lookahead character and reads the next one. */
    method GetCh() returns (prev: char)
      requires ch.Next?
      modifies this`file, this`ch
      ensures prev == old(ch).c && [prev] + Remaining() == old(Remaining())
      ensures old(Remaining()) != [] && prev == old(Remaining())[0] && Remaining() == old(Remaining())[1..]
      ensures ch == Eof ==> file == []
    {
      prev := ch.c;
      ch := ReadChar();
    }

    /** operator bool: true while there is still a line to read. */
    predicate HasLine()
      reads this
      ensures Valid() ==> (HasLine() <==> Remaining() != [])
    {
      ch != Eof
    }

    /**
     * getline: the characters up to the next terminator; the terminator is
     * consumed. Reading at end of input is an error and changes nothing.
     */
    method GetLine() returns (r: Result<seq<char>, ReaderError>)
      requires Valid()
      modifies this
      ensures Valid()
      ensures old(ch) == Eof ==> r == Failure(ReadBeyondEof) && Remaining() == old(Remaining())
      ensures old(ch) != Eof ==>
        var next := NextLine(old(Remaining()));
        r == Success(next.line) && Remaining() == next.rest
    {
      if ch == Eof {
        return Failure(ReadBeyondEof);
      }
      ghost var input := Remaining();
      FillLine();
      ghost var k := |buf|;
      ConsumeEndOfLine();
      NextLineRest(input, k, Remaining());
      var line := buf;
      buf := [];
      r := Success(line);
    }

    /** The loop of getline: moves the line's characters from the input to buf. */
    method FillLine()
      requires buf == [] && (ch == Eof ==> file == [])
      modifies this
      ensures ch == Eof ==> file == []
      ensures buf == old(Remaining())[..LineLength(old(Remaining()))]
      ensures Remaining() == old(Remaining())[LineLength(old(Remaining()))..]
    {
      ghost var input := Remaining();
      while ch != Eof && ch != Next('\n') && ch != Next('\r')
        invariant ch == Eof ==> file == []
        invariant |buf| <= |input| && buf == input[..|buf|] && Remaining() == input[|buf|..]
        invariant forall i :: 0 <= i < |buf| ==> !IsTerminator(input[i])
        decreases |input| - |buf|
      {
        var c := GetCh();
        SliceStep(input, |buf|, c);
        buf := buf + [c];
      }
      LineLengthOf(input, |buf|);
    }

    /** Consumes one LF, one CR, or a CR and the LF after it; nothing at EOF. */
    method ConsumeEndOfLine()
      requires ch == Eof ==> file == []
      modifies this`file, this`ch
      ensures ch == Eof ==> file == []
      ensures var s := old(Remaining());
        if s == [] then Remaining() == []
        else if s[0] == '\r' && |s| > 1 && s[1] == '\n' then Remaining() == s[2..]
        else Remaining() == s[1..]
    {
      ghost var s := Remaining();
      if ch != Eof {
        var c := GetCh();
        assert s[0] == c && Remaining() == s[1..];
        if c == '\r' && ch == Next('\n') {
          ghost var s1 := Remaining();
          c := GetCh();
          assert s1[1..] == s[2..];
        }
      }
    }
  }
}
