/**
  The persisted entities of the blog and the value types the handlers exchange:
  users, posts, subscribers, newsletters, outgoing mail and stored files.
  Tables are sequences of rows; a query's `.scalar()` is the first matching row.
 */
module Entities {
  import opened Wrappers
  import SignedTokens

  type UserId = int

  /**
    A row of the `user` table. The model file shown declares no `admin`
    column; the flag's type is inferred from the decorators' `is False` test,
    under which an unset flag (`None`) is possible and passes.
   */
  datatype User = User(
    id: UserId,
    username: string,
    email: string,
    passwordHash: string,
    profilePic: string,
    admin: Option<bool>)

  /** A row of the `post` table, reduced to the fields the core reads. */
  datatype Post = Post(authorId: UserId, postPic: string)

  /** A row of the `subscriber` table. */
  datatype Subscriber = Subscriber(id: int, email: string, subscribedAt: int)

  /** A row of the `newsletter` table; `dateEmail` is set by a broadcast. */
  datatype Newsletter = Newsletter(
    subject: string,
    message: string,
    newsletterFile: string,
    dateEmail: Option<int>)

  /** The static directories the application writes uploads to. */
  datatype Directory = ProfilePics | PostPics | NewsletterFiles

  /** A stored file: a directory under the application's static root and a file name. */
  datatype FilePath = FilePath(dir: Directory, name: string)

  /** A mail attachment: the name shown, the declared content type and the file read. */
  datatype Attachment = Attachment(filename: string, contentType: string, source: FilePath)

  /** An outgoing message: recipients, subject, body and optional attachment. */
  datatype Mail = Mail(
    recipients: seq<string>,
    subject: string,
    body: Body,
    attachment: Option<Attachment>)

  /**
    A message body: a subscription-confirmation link carrying a signed token,
    a password-reset link carrying the (opaque) reset token, or plain text.
   */
  datatype Body =
    | SubscribeLink(token: SignedTokens.Token)
    | ResetLink(resetToken: string)
    | Text(text: string)

  /** Who is making the request: nobody logged in, or a logged-in user. */
  datatype Actor = Anonymous | Authenticated(id: UserId, admin: Option<bool>)
}
