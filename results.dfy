/** Option and Result types shared by every module, and the kinds of failure
    the converter can raise (modelled as values rather than exceptions). */
module Results {

  datatype Option<+T> = None | Some(value: T)

  /** The exceptions raised by the core, one constructor per cause. */
  datatype Error =
    | OddDelimiters      // split_nodes_delimiter: a delimiter without its partner
    | EmptySeparator     // str.split called with an empty separator
    | InvalidTextType    // text_node_to_html_node: a text_type outside TextType
    | NotImplemented     // HTMLNode.to_html is abstract
    | MissingTag         // ParentNode.to_html: no tag
    | MissingChildren    // ParentNode.to_html: no children
    | NoRawText          // to_raw_text on a node without it, or on children None
    | IndexError         // substrings[1] on a split that found nothing

  datatype Result<+T> = Ok(value: T) | Err(error: Error) {
    predicate IsFailure() { Err? }

    function PropagateFailure<U>(): Result<U>
      requires Err?
    {
      Err(error)
    }

    function Extract(): T
      requires Ok?
    {
      value
    }
  }
}
