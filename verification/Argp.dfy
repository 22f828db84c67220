/** The option tables of lib/argp.h: a tree of argps, each with its options and its children. */
module Argp {
  import opened Common

  /** struct argp_option without its texts; the flags are OPTION_ALIAS, OPTION_DOC, OPTION_HIDDEN
      and OPTION_ARG_OPTIONAL. */
  datatype Opt = Opt(name: Option<string>, key: int, arg: bool, alias: bool, doc: bool, hidden: bool, argOptional: bool)

  /** struct argp.  `options` is None for a null pointer; the terminating entry of the vector is not
      part of the sequence.  `id` tells argps apart, as their addresses do. */
  datatype Argp = Argp(id: nat, options: Option<seq<Opt>>, parser: bool, argsDoc: Option<string>, children: seq<Argp>)

  /** __option_is_short: a printable ASCII key of an option that is not just documentation. */
  predicate IsShort(o: Opt) {
    !o.doc && ' ' as int <= o.key <= '~' as int
  }

  // By number: the blank is the first printable character and the tilde the last.
  lemma ShortKeys(o: Opt)
    ensures IsShort(o) <==> !o.doc && 32 <= o.key <= 126
  {
  }

  function Key(o: Opt): char
    requires IsShort(o)
  {
    o.key as char
  }

  // The options of a node, none for a null pointer.
  function Own(argp: Argp): seq<Opt> {
    match argp.options case None => [] case Some(opts) => opts
  }

  /** Every option of the tree, the nodes in preorder. */
  function Preorder(argp: Argp): seq<Opt>
    decreases argp, 1
  {
    Own(argp) + PreorderAll(argp.children)
  }

  function PreorderAll(children: seq<Argp>): seq<Opt>
    decreases children, 0
  {
    if children == [] then [] else Preorder(children[0]) + PreorderAll(children[1..])
  }
}
