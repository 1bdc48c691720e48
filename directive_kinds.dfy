/*
 * The two enumerations of include/mmml/directives.hpp that classify what a
 * directive behaviour produces and how it is displayed.
 */
module DirectiveKinds {

  /** `Directive_Category`. */
  datatype Category =
    | Meta           // generates neither plaintext nor HTML
    | PurePlaintext  // produces only plaintext; folded into highlighted text
    | PureHtml       // produces only HTML, no plaintext
    | Formatting     // an HTML wrapper whose contents get highlighted
    | Mixed          // anything else; treated like `PureHtml` when highlighting

  /** `Directive_Display`. */
  datatype Display = NoDisplay | Block | InLine
}
