/** Request constraints enforced at the HTTP boundary, and the response shapes. */
module Dto {
  import opened Common
  import opened Entity

  /**
   * `@NotBlank`: the value is non-empty after `String.trim()`, which strips every
   * character up to and including the space.
   */
  predicate NotBlank(s: string)
  {
    exists i :: 0 <= i < |s| && s[i] > ' '
  }

  /** CreateUserRequest: name not blank, 1 to 255 characters. */
  predicate ValidUserName(name: string)
  {
    NotBlank(name) && 1 <= |name| <= 255
  }

  /** CreateSessionRequest / CreatePhotoRequest: a positive parent id. */
  predicate ValidParentId(id: Id)
  {
    id > 0
  }

  /** CreatePhotoRequest: image URL not blank and at most 500 characters. */
  predicate ValidImageUrl(url: string)
  {
    NotBlank(url) && |url| <= ImageUrlMaxLength
  }

  datatype UserResponse = UserResponse(id: Id, name: string, createdAt: Time)

  datatype PhotoResponse = PhotoResponse(id: Id, sessionId: Id, imageUrl: string, createdAt: Time)

  /** `photos` is null in the basic mapping and filled in the detailed one. */
  datatype SessionResponse =
    SessionResponse(id: Id, userId: Id, createdAt: Time, photos: Option<seq<PhotoResponse>>)

  /** The basic projections of a stored row (each service's `mapToResponse`). */
  function UserResponseOf(u: UserRow): (r: UserResponse)
    ensures r.id == u.id && r.name == u.name && r.createdAt == u.createdAt
  {
    UserResponse(u.id, u.name, u.createdAt)
  }

  /** The basic session projection never carries a photo list. */
  function SessionResponseOf(s: SessionRow): (r: SessionResponse)
    ensures r.id == s.id && r.userId == s.userId && r.createdAt == s.createdAt
    ensures r.photos.None?
  {
    SessionResponse(s.id, s.userId, s.createdAt, None)
  }

  function PhotoResponseOf(p: PhotoRow): (r: PhotoResponse)
    ensures r.id == p.id && r.sessionId == p.sessionId && r.imageUrl == p.imageUrl && r.createdAt == p.createdAt
  {
    PhotoResponse(p.id, p.sessionId, p.imageUrl, p.createdAt)
  }
}
