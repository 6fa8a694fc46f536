/** The read-only result of a parse (NeoCli/CommandCollection.cs): the encountered commands,
    in encounter order and with repetitions, and the generated documentation. The field
    `parsedArgs` is what enumerating the collection yields. */
module CommandCollections {
  import opened Wrappers
  import opened Text
  import opened Commands

  /** Whether `key` is the command's key or its alias. */
  predicate Names(c: Command, key: string)
  {
    c.key == key || c.alias == Val(key)
  }

  datatype CommandCollection = CommandCollection(parsedArgs: seq<Command>, documentation: string)
  {
    /** The first entry, in list order, whose key or alias is `key`; null when there is none.
        It reads only fields that never change, so looking up mutates nothing. */
    function Get(key: string): (r: Command?)
      ensures r == null <==> forall j | 0 <= j < |parsedArgs| :: !Names(parsedArgs[j], key)
      ensures r != null ==> exists i | 0 <= i < |parsedArgs| :: parsedArgs[i] == r && Names(r, key)
                                                           && forall j | 0 <= j < i :: !Names(parsedArgs[j], key)
    {
      var i := FirstIndex(parsedArgs, c => Names(c, key));
      if i < |parsedArgs| then parsedArgs[i] else null
    }

    /** Whether some entry has `key` as its key or alias. */
    predicate Contains(key: string)
      ensures Contains(key) <==> exists j | 0 <= j < |parsedArgs| :: Names(parsedArgs[j], key)
    {
      Get(key) != null
    }
  }
}
