/** `echo`: the words of the command line printed on one line. */
module EchoCommand {
  import opened Common
  import opened Text

  /**
   * What `echo` prints, with `args[0]` the program and `args[1]` the command
   * name: the words joined by single spaces, then a newline unless the first
   * word is `-n`. Nothing to print, or `-n` alone, is an error.
   */
  function Echo(args: seq<string>): (r: Result<string>)
    requires |args| >= 2
    ensures r.Err? <==> |args| == 2 || (|args| == 3 && args[2] == "-n")
    ensures r.Err? ==> r.kind == InvalidInput
  {
    if |args| == 2 then Err(InvalidInput)
    else if |args| == 3 then
      if args[2] == "-n" then Err(InvalidInput) else Ok(args[2] + "\n")
    else if args[2] == "-n" then Ok(Join(args[3..], ' '))
    else Ok(Join(args[2..], ' ') + "\n")
  }

  /** The words `echo` prints: everything after the command name, less a leading `-n`. */
  function Words(args: seq<string>): seq<string>
    requires |args| >= 3
  {
    if args[2] == "-n" then args[3..] else args[2..]
  }

  /**
   * A successful `echo` prints its words separated by single spaces, ending in
   * a newline exactly when there is no leading `-n`. This holds for one word
   * and for many alike, although the source treats them in separate branches.
   */
  lemma EchoPrintsWords(args: seq<string>)
    requires |args| >= 2 && Echo(args).Ok?
    ensures |Words(args)| >= 1
    ensures Echo(args).value ==
      if args[2] == "-n" then Join(Words(args), ' ') else Join(Words(args), ' ') + "\n"
  {
  }

  /** The printed line splits back at its spaces into the words, when no word holds a space. */
  lemma EchoRoundTrip(args: seq<string>)
    requires |args| >= 2 && Echo(args).Ok?
    requires forall i :: 2 <= i < |args| ==> ' ' !in args[i]
    ensures var out := Echo(args).value;
      var line := if args[2] == "-n" then out else out[..|out| - 1];
      Split(line, ' ') == Words(args)
  {
    EchoPrintsWords(args);
    var words := Words(args);
    forall i | 0 <= i < |words|
      ensures ' ' !in words[i]
    {
      if args[2] == "-n" {
        assert words[i] == args[i + 3];
      } else {
        assert words[i] == args[i + 2];
      }
    }
    SplitJoin(words, ' ');
    var out := Echo(args).value;
    if args[2] != "-n" {
      assert out[..|out| - 1] == Join(words, ' ');
    }
  }
}
