/** The ASCII control tokens that travel as ordinary payload, and the
    command verbs typed at the client's prompt. */
module Tokens {
  import opened Base

  const END_TOKEN: Bytes := [69, 78, 68]                               // "END"
  const EXIT_TOKEN: Bytes := [69, 88, 73, 84]                          // "EXIT"
  const GEN_ACK: Bytes := [71, 69, 78, 95, 65, 67, 75]                 // "GEN_ACK"
  const PUT_ACK: Bytes := [80, 85, 84, 95, 65, 67, 75]                 // "PUT_ACK"
  const NOFILE: Bytes := [78, 79, 70, 73, 76, 69]                      // "NOFILE"
  const DELETE_ERR: Bytes := [68, 69, 76, 69, 84, 69, 95, 69, 82, 82]  // "DELETE_ERR"
  const BADINPT: Bytes := [66, 65, 68, 73, 78, 80, 84]                 // "BADINPT"

  const LS_VERB: Bytes := [108, 115]                                   // "ls"
  const DELETE_VERB: Bytes := [100, 101, 108, 101, 116, 101]           // "delete"
  const EXIT_VERB: Bytes := [101, 120, 105, 116]                       // "exit"
  const PUT_VERB: Bytes := [112, 117, 116]                             // "put"
  const GET_VERB: Bytes := [103, 101, 116]                             // "get"
}
