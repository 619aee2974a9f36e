/**
 * The Ruby exceptions that can be raised while one repository is handled.
 * Inside call_api (Dev/Git/get_pull_requests_bitbar.15m.rb:146-162) each of
 * them is rescued and reported as "Got Error: <message>".
 */
module RubyErrors {

  datatype RubyError =
    | Transport(message: string)    // whatever Net::HTTP raises while sending the request or reading the reply
    | JsonParse(message: string)    // JSON::ParserError on a body that is not JSON
    | NoLinkMatch                   // a Link element the pattern does not match: nil.captures
    | ArrayIndexedByString          // Array#[] given a String ("size", "title"): TypeError
    | NoToI(receiver: string)       // to_i sent to true, false, an Array or a Hash
    | NilIndexed                    // pr_detail['head']['ref'] or ['user']['login'] on a missing object
    | ConcatNil                     // repo_details.concat(nil): TypeError

  /** The exception's message, in the wording of Ruby 3.3. */
  function Message(e: RubyError): (m: string)
    ensures !e.Transport? && !e.JsonParse? ==> |m| > 0
  {
    match e
    case Transport(m) => m
    case JsonParse(m) => m
    case NoLinkMatch => "undefined method `captures' for nil"
    case ArrayIndexedByString => "no implicit conversion of String into Integer"
    case NoToI(r) => "undefined method `to_i' for " + r
    case NilIndexed => "undefined method `[]' for nil"
    case ConcatNil => "no implicit conversion of nil into Array"
  }

  /** The errors the plugin raises itself are told apart by their messages. */
  lemma MessagesDistinct(e1: RubyError, e2: RubyError)
    requires !e1.Transport? && !e1.JsonParse? && !e2.Transport? && !e2.JsonParse?
    ensures Message(e1) == Message(e2) <==> e1 == e2
  {
    var m1, m2 := Message(e1), Message(e2);
    if m1 == m2 {
      // The messages differ at their first character, after "undefined method `"
      // or after "no implicit conversion of ", or in the receiver of to_i.
      assert m1[0] == m2[0] && m1[18] == m2[18];
      if e1.ArrayIndexedByString? || e1.ConcatNil? {
        assert m1[26] == m2[26];
      }
      if e1.NoToI? && e2.NoToI? {
        var prefix := "undefined method `to_i' for ";
        assert m1[|prefix|..] == e1.receiver;
        assert m2[|prefix|..] == e2.receiver;
      }
    }
  }
}
