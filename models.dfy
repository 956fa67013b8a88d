/** The request and response records the services exchange with the HTTP layer. */
module Models {
  import opened Common

  datatype UserRequest = UserRequest(password: string, email: string)

  datatype MessageRequest = MessageRequest(body: string, userId: Uuid)

  datatype UserResponse = UserResponse(
    id: Uuid,
    createdAt: Time,
    updatedAt: Time,
    email: string,
    isPremium: bool,
    token: string,
    refreshToken: string)

  /** models.UserResponse{}: what a failed request returns. */
  const NoUser := UserResponse(Nil, 0, 0, "", false, "", "")

  datatype MessageResponse = MessageResponse(id: Uuid, createdAt: Time, updatedAt: Time, body: string, userId: Uuid)

  const NoMessage := MessageResponse(Nil, 0, 0, "", Nil)

  datatype WebhookData = WebhookData(userId: string)

  datatype PaymentProviderWebhook = PaymentProviderWebhook(event: string, data: WebhookData)
}
