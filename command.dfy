/** A registered command-line flag and the values collected for it (NeoCli/Command.cs). */
module Commands {
  import opened Wrappers
  import opened Text
  import opened Necessities

  /** The definition fields of the C# record are fixed at construction and are `const`
      here; `values` is the list the parser appends to in place. */
  class Command {
    const key: string
    const alias: Nullable<string>
    const helpText: Nullable<string>
    const excludes: Nullable<string>
    const necessity: Necessity
    var values: seq<string>

    constructor (key: string, alias: Nullable<string> := Null, helpText: Nullable<string> := Null,
                 excludes: Nullable<string> := Null, necessity: Necessity := None)
      ensures this.key == key && this.alias == alias && this.helpText == helpText
      ensures this.excludes == excludes && this.necessity == necessity
      ensures values == []
    {
      this.key := key;
      this.alias := alias;
      this.helpText := helpText;
      this.excludes := excludes;
      this.necessity := necessity;
      values := [];
    }

    /** The primary value: the first collected value, or null when none was collected. */
    function Value(): (r: Nullable<string>)
      reads this
      ensures r == Null <==> |values| == 0
      ensures r != Null ==> [r.value] == values[..1]
    {
      if values == [] then Null else Val(values[0])
    }

    /** Whether the alias is shown: it is neither null nor blank. */
    predicate ShowsAlias()
    {
      !IsNullOrWhiteSpace(alias)
    }

    /** The display form: the prefixed key, then the prefixed alias after a space
        when the alias is not blank. */
    function KeyString(): (r: string)
      ensures |r| > |key| && r[..|key| + 1] == "-" + key
      ensures !ShowsAlias() <==> |r| == |key| + 1
      ensures ShowsAlias() ==> r[|key| + 1..] == " -" + alias.value
    {
      "-" + key + (if ShowsAlias() then " -" + alias.value else "")
    }

    /** The help-text option as it is interpolated: null prints as nothing. */
    function HelpTextOrEmpty(): string
    {
      match helpText
      case Null => ""
      case Val(t) => t
    }

    /** One line of the generated help: display form, a dash, then the help text. */
    function DocumentationString(): (r: string)
      ensures |r| >= |KeyString()| && r[..|KeyString()|] == KeyString()
      ensures r[|KeyString()|..] == " - " + HelpTextOrEmpty()
    {
      KeyString() + " - " + HelpTextOrEmpty()
    }

    /** Whether the command appears in the help: its help text has a non-white-space character. */
    predicate HasHelpText()
      ensures HasHelpText() <==>
                helpText.Val? && exists i | 0 <= i < |helpText.value| :: !IsWhiteSpace(helpText.value[i])
    {
      !IsNullOrWhiteSpace(helpText)
    }
  }

  /** A command whose values are required but which collected none, given the collected values. */
  predicate LacksRequired(c: Command, values: map<Command, seq<string>>)
  {
    c.necessity == Required && c in values && values[c] == []
  }

  /** `FirstOrDefault` of the post-scan check: the first command in list order that is
      `Required` and has no values, or null. */
  function FirstMissing(cs: seq<Command>, values: map<Command, seq<string>>): (r: Command?)
    ensures r == null <==> forall j | 0 <= j < |cs| :: !LacksRequired(cs[j], values)
    ensures r != null ==> exists i | 0 <= i < |cs| :: cs[i] == r && LacksRequired(r, values)
                                                   && forall j | 0 <= j < i :: !LacksRequired(cs[j], values)
  {
    var i := FirstIndex(cs, c => LacksRequired(c, values));
    if i < |cs| then cs[i] else null
  }

  /** The check reads only the values of the listed commands. */
  lemma FirstMissingReadsListed(cs: seq<Command>, v1: map<Command, seq<string>>, v2: map<Command, seq<string>>)
    requires forall c | c in cs :: c in v1 && c in v2 && v1[c] == v2[c]
    ensures FirstMissing(cs, v1) == FirstMissing(cs, v2)
  {
    assert forall j | 0 <= j < |cs| :: LacksRequired(cs[j], v1) == LacksRequired(cs[j], v2);
  }
}
